/**
  Recipe displays: a type, and the slot displays and numbers that type has. They are written to
  big-endian buffers, and read from a buffer of either byte order.
 */
module Recipes {
  import opened Bytes
  import opened Numeric
  import opened VarNumeric
  import opened Arrays
  import opened Displays

  /** `experience` is a float, given by its bits. */
  datatype RecipeDisplay = RecipeDisplay(kind: RecipeKind, width: int32, height: int32,
                                         ingredients: seq<SlotDisplay>, fuel: SlotDisplay, result: SlotDisplay,
                                         craftingStation: SlotDisplay, cookingTime: int32, experience: uint32)

  /** A recipe of which only the type was set. */
  function BlankRecipe(kind: RecipeKind): RecipeDisplay {
    RecipeDisplay(kind, 0, 0, [], Blank(Empty), Blank(Empty), Blank(Empty), 0, 0)
  }

  function EncPrefixedSlots(ds: seq<SlotDisplay>): bytes {
    EncVarInt(SizeAsInt(|ds|)) + EncSlots(ds)
  }

  function EncFixedSlots(n: nat, ds: seq<SlotDisplay>): bytes {
    if |ds| != n then EncEmpties(n) else EncSlots(ds)
  }

  function EncOutcome(r: RecipeDisplay): bytes {
    EncSlot(r.result) + EncSlot(r.craftingStation)
  }

  function EncRecipeBody(r: RecipeDisplay): bytes {
    match r.kind
    case CraftingShapeless => EncPrefixedSlots(r.ingredients) + EncOutcome(r)
    case CraftingShaped => EncVarInt(r.width) + (EncVarInt(r.height) + (EncPrefixedSlots(r.ingredients) + EncOutcome(r)))
    case Furnace =>
      EncFixedSlots(1, r.ingredients)
      + (EncSlot(r.fuel) + (EncOutcome(r) + (EncVarInt(r.cookingTime) + EncNum(true, 4, r.experience))))
    case Stonecutter => EncFixedSlots(1, r.ingredients) + EncOutcome(r)
    case Smithing => EncFixedSlots(3, r.ingredients) + EncOutcome(r)
  }

  /** `RecipeDisplay::toBytes`. */
  function EncRecipe(r: RecipeDisplay): bytes {
    EncVarInt(RecipeId(r.kind)) + EncRecipeBody(r)
  }

  function DecPrefixedSlots(bs: bytes): (p: Parsed<seq<SlotDisplay>>)
    ensures p.Got? ==> |p.rest| < |bs|
  {
    var (n, rest) :- DecVarInt(bs);
    if n < 0 then Fail else DecSlots(n, rest)
  }

  /** The result and the crafting station, put into `r`. */
  function DecOutcome(r: RecipeDisplay, bs: bytes): Parsed<RecipeDisplay> {
    var (result, rest) :- DecSlot(bs);
    var (station, rest') :- DecSlot(rest);
    Got(r.(result := result, craftingStation := station), rest')
  }

  function DecFurnaceTail(be: bool, r: RecipeDisplay, bs: bytes): Parsed<RecipeDisplay> {
    var (time, rest) :- DecVarInt(bs);
    var (experience, rest') :- DecNum(be, 4, rest);
    Got(r.(cookingTime := time, experience := experience), rest')
  }

  function DecRecipeBody(be: bool, kind: RecipeKind, bs: bytes): Parsed<RecipeDisplay> {
    match kind
    case CraftingShapeless =>
      (var (ingredients, rest) :- DecPrefixedSlots(bs);
       DecOutcome(BlankRecipe(kind).(ingredients := ingredients), rest))
    case CraftingShaped =>
      (var (width, rest) :- DecVarInt(bs);
       var (height, rest') :- DecVarInt(rest);
       var (ingredients, rest'') :- DecPrefixedSlots(rest');
       DecOutcome(BlankRecipe(kind).(width := width, height := height, ingredients := ingredients), rest''))
    case Furnace =>
      (var (ingredients, rest) :- DecSlots(1, bs);
       var (fuel, rest') :- DecSlot(rest);
       var (r, rest'') :- DecOutcome(BlankRecipe(kind).(ingredients := ingredients, fuel := fuel), rest');
       DecFurnaceTail(be, r, rest''))
    case Stonecutter =>
      (var (ingredients, rest) :- DecSlots(1, bs);
       DecOutcome(BlankRecipe(kind).(ingredients := ingredients), rest))
    case Smithing =>
      (var (ingredients, rest) :- DecSlots(3, bs);
       DecOutcome(BlankRecipe(kind).(ingredients := ingredients), rest))
  }

  /** `readRecipeDisplay`. */
  function DecRecipe(be: bool, bs: bytes): Parsed<RecipeDisplay> {
    var (id, rest) :- DecVarInt(bs);
    DecRecipeBody(be, RecipeKindOf(id), rest)
  }

  // ----- reading back

  function RepairedFixed(n: nat, ds: seq<SlotDisplay>): seq<SlotDisplay> {
    if |ds| != n then Blanks(n) else RepairedAll(ds)
  }

  /** The recipe that the bytes of `r` carry. */
  function RepairedRecipe(r: RecipeDisplay): (s: RecipeDisplay)
    ensures s.kind == r.kind
  {
    var s := BlankRecipe(r.kind).(result := Repaired(r.result), craftingStation := Repaired(r.craftingStation));
    match r.kind
    case CraftingShapeless => s.(ingredients := RepairedAll(r.ingredients))
    case CraftingShaped => s.(width := r.width, height := r.height, ingredients := RepairedAll(r.ingredients))
    case Furnace => s.(ingredients := RepairedFixed(1, r.ingredients), fuel := Repaired(r.fuel),
                       cookingTime := r.cookingTime, experience := r.experience)
    case Stonecutter => s.(ingredients := RepairedFixed(1, r.ingredients))
    case Smithing => s.(ingredients := RepairedFixed(3, r.ingredients))
  }

  /** Everything that is written can be read. */
  predicate ReadableRecipe(r: RecipeDisplay) {
    && Readable(r.result) && Readable(r.craftingStation)
    && (r.kind == Furnace ==> Readable(r.fuel))
    && match r.kind
       case CraftingShapeless => |r.ingredients| < TWO_31 && AllReadable(r.ingredients)
       case CraftingShaped => |r.ingredients| < TWO_31 && AllReadable(r.ingredients)
       case Smithing => |r.ingredients| == 3 ==> AllReadable(r.ingredients)
       case _ => |r.ingredients| == 1 ==> AllReadable(r.ingredients)
  }

  /** The bits of the experience read the same in both byte orders. */
  predicate Palindrome(v: uint32) {
    LeBytes(v, 4) == Reversed(LeBytes(v, 4))
  }

  lemma OutcomeRoundTrip(r: RecipeDisplay, s: RecipeDisplay, rest: bytes)
    requires Readable(r.result) && Readable(r.craftingStation)
    ensures DecOutcome(s, EncOutcome(r) + rest)
            == Got(s.(result := Repaired(r.result), craftingStation := Repaired(r.craftingStation)), rest)
  {
    hide EncSlot, DecSlot, Readable, Repaired;
    assert EncOutcome(r) + rest == EncSlot(r.result) + (EncSlot(r.craftingStation) + rest);
    SlotRoundTrip(r.result, EncSlot(r.craftingStation) + rest);
    SlotRoundTrip(r.craftingStation, rest);
  }

  lemma PrefixedSlotsRoundTrip(ds: seq<SlotDisplay>, rest: bytes)
    requires |ds| < TWO_31 && AllReadable(ds)
    ensures DecPrefixedSlots(EncPrefixedSlots(ds) + rest) == Got(RepairedAll(ds), rest)
  {
    hide EncSlots, DecSlots, EncVarInt, DecVarInt, AllReadable, RepairedAll;
    assert EncPrefixedSlots(ds) + rest == EncVarInt(|ds|) + (EncSlots(ds) + rest);
    VarIntRoundTrip(|ds|, EncSlots(ds) + rest);
    SlotsRoundTrip(ds, rest);
  }

  lemma FixedSlotsRoundTrip(n: nat, ds: seq<SlotDisplay>, rest: bytes)
    requires |ds| == n ==> AllReadable(ds)
    ensures DecSlots(n, EncFixedSlots(n, ds) + rest) == Got(RepairedFixed(n, ds), rest)
  {
    hide EncSlots, DecSlots, AllReadable, RepairedAll, EncEmpties;
    if |ds| != n {
      BlanksRoundTrip(n, rest);
    } else {
      SlotsRoundTrip(ds, rest);
    }
  }

  /** A number written big-endian and read little-endian is the same number only when its bytes are a
      palindrome. */
  lemma SwappedNumber(v: uint32, rest: bytes)
    ensures DecNum(false, 4, EncNum(true, 4, v) + rest).Got?
    ensures var p := DecNum(false, 4, EncNum(true, 4, v) + rest); p.rest == rest && (p.value == v <==> Palindrome(v))
  {
    var image := Reversed(LeBytes(v, 4));
    TakeBytesOfAppend(image, rest);
    LeBytesOfFromLe(image);
    assert Range(4) == TWO_32;
    FromLeOfLeBytes(v, 4);
  }

  lemma FurnaceTailRoundTrip(be: bool, time: int32, experience: uint32, r: RecipeDisplay, rest: bytes)
    ensures var p := DecFurnaceTail(be, r, EncVarInt(time) + EncNum(true, 4, experience) + rest);
            && p.Got? && p.rest == rest && p.value == r.(cookingTime := time, experience := p.value.experience)
            && (p.value.experience == experience <==> be || Palindrome(experience))
  {
    hide EncVarInt, DecVarInt, EncNum, DecNum, Palindrome;
    var tail := EncNum(true, 4, experience) + rest;
    assert EncVarInt(time) + EncNum(true, 4, experience) + rest == EncVarInt(time) + tail;
    VarIntRoundTrip(time, tail);
    assert Range(4) == TWO_32;
    if be {
      NumRoundTrip(true, 4, experience, rest);
    } else {
      SwappedNumber(experience, rest);
    }
  }

  lemma ShapelessRoundTrip(be: bool, r: RecipeDisplay, rest: bytes)
    requires ReadableRecipe(r) && r.kind == CraftingShapeless
    ensures DecRecipeBody(be, r.kind, EncRecipeBody(r) + rest) == Got(RepairedRecipe(r), rest)
  {
    hide EncPrefixedSlots, DecPrefixedSlots, EncOutcome, DecOutcome, Readable, Repaired, RepairedAll, AllReadable;
    assert EncRecipeBody(r) + rest == EncPrefixedSlots(r.ingredients) + (EncOutcome(r) + rest);
    PrefixedSlotsRoundTrip(r.ingredients, EncOutcome(r) + rest);
    OutcomeRoundTrip(r, BlankRecipe(r.kind).(ingredients := RepairedAll(r.ingredients)), rest);
  }

  lemma ShapedRoundTrip(be: bool, r: RecipeDisplay, rest: bytes)
    requires ReadableRecipe(r) && r.kind == CraftingShaped
    ensures DecRecipeBody(be, r.kind, EncRecipeBody(r) + rest) == Got(RepairedRecipe(r), rest)
  {
    hide EncPrefixedSlots, DecPrefixedSlots, EncOutcome, DecOutcome, EncVarInt, DecVarInt, Readable, Repaired,
         RepairedAll, AllReadable;
    var t1 := EncOutcome(r) + rest;
    var t2 := EncPrefixedSlots(r.ingredients) + t1;
    var t3 := EncVarInt(r.height) + t2;
    assert EncRecipeBody(r) + rest == EncVarInt(r.width) + t3;
    VarIntRoundTrip(r.width, t3);
    VarIntRoundTrip(r.height, t2);
    PrefixedSlotsRoundTrip(r.ingredients, t1);
    OutcomeRoundTrip(r, BlankRecipe(r.kind).(width := r.width, height := r.height,
                                             ingredients := RepairedAll(r.ingredients)), rest);
  }

  lemma FixedRecipeRoundTrip(be: bool, n: nat, r: RecipeDisplay, rest: bytes)
    requires ReadableRecipe(r) && (if r.kind == Stonecutter then n == 1 else r.kind == Smithing && n == 3)
    ensures DecRecipeBody(be, r.kind, EncRecipeBody(r) + rest) == Got(RepairedRecipe(r), rest)
  {
    hide EncFixedSlots, DecSlots, EncOutcome, DecOutcome, Readable, Repaired, RepairedFixed, AllReadable;
    assert EncRecipeBody(r) + rest == EncFixedSlots(n, r.ingredients) + (EncOutcome(r) + rest);
    FixedSlotsRoundTrip(n, r.ingredients, EncOutcome(r) + rest);
    OutcomeRoundTrip(r, BlankRecipe(r.kind).(ingredients := RepairedFixed(n, r.ingredients)), rest);
  }

  lemma FurnaceRoundTrip(be: bool, r: RecipeDisplay, rest: bytes)
    requires ReadableRecipe(r) && r.kind == Furnace
    ensures var p := DecRecipeBody(be, r.kind, EncRecipeBody(r) + rest);
            && p.Got? && p.rest == rest && p.value == RepairedRecipe(r).(experience := p.value.experience)
            && (p.value.experience == r.experience <==> be || Palindrome(r.experience))
  {
    hide EncFixedSlots, DecSlots, EncSlot, DecSlot, EncOutcome, DecOutcome, EncVarInt, EncNum, DecFurnaceTail, Readable,
         Repaired, RepairedFixed, AllReadable, Palindrome;
    var t0 := EncVarInt(r.cookingTime) + EncNum(true, 4, r.experience) + rest;
    var t1 := EncOutcome(r) + t0;
    var t2 := EncSlot(r.fuel) + t1;
    assert EncRecipeBody(r) + rest == EncFixedSlots(1, r.ingredients) + t2;
    FixedSlotsRoundTrip(1, r.ingredients, t2);
    SlotRoundTrip(r.fuel, t1);
    var s := BlankRecipe(r.kind).(ingredients := RepairedFixed(1, r.ingredients), fuel := Repaired(r.fuel));
    OutcomeRoundTrip(r, s, t0);
    var s' := s.(result := Repaired(r.result), craftingStation := Repaired(r.craftingStation));
    FurnaceTailRoundTrip(be, r.cookingTime, r.experience, s', rest);
  }

  /** Reading the bytes of a recipe always consumes exactly those bytes. It gives the repaired recipe exactly
      when the buffer is big-endian, or the recipe has no experience, or its bits are a palindrome. */
  lemma RecipeRoundTrip(be: bool, r: RecipeDisplay, rest: bytes)
    requires ReadableRecipe(r)
    ensures var p := DecRecipe(be, EncRecipe(r) + rest); p.Got? && p.rest == rest
    ensures DecRecipe(be, EncRecipe(r) + rest) == Got(RepairedRecipe(r), rest)
            <==> be || r.kind != Furnace || Palindrome(r.experience)
  {
    hide EncVarInt, DecVarInt, EncRecipeBody, DecRecipeBody, ReadableRecipe, Palindrome;
    assert EncRecipe(r) + rest == EncVarInt(RecipeId(r.kind)) + (EncRecipeBody(r) + rest);
    VarIntRoundTrip(RecipeId(r.kind), EncRecipeBody(r) + rest);
    RecipeIds(0, r.kind);
    match r.kind {
      case CraftingShapeless => ShapelessRoundTrip(be, r, rest);
      case CraftingShaped => ShapedRoundTrip(be, r, rest);
      case Furnace => FurnaceRoundTrip(be, r, rest);
      case Stonecutter => FixedRecipeRoundTrip(be, 1, r, rest);
      case Smithing => FixedRecipeRoundTrip(be, 3, r, rest);
    }
  }

  lemma RewriteFixedSame(n: nat, ds: seq<SlotDisplay>)
    requires |ds| == n ==> AllReadable(ds)
    ensures EncFixedSlots(n, RepairedFixed(n, ds)) == EncFixedSlots(n, ds)
  {
    if |ds| != n {
      RewriteBlanksSame(n);
    } else {
      RewriteAllSame(ds);
    }
  }

  /** Writing the repaired recipe gives the same bytes: the two compare equal. */
  lemma RewriteRecipeSame(r: RecipeDisplay)
    requires ReadableRecipe(r)
    ensures EncRecipe(RepairedRecipe(r)) == EncRecipe(r)
  {
    hide EncSlot, EncSlots, EncFixedSlots, RepairedFixed, RepairedAll, Repaired, EncVarInt, EncNum, Readable, AllReadable;
    RewriteSame(r.result);
    RewriteSame(r.craftingStation);
    match r.kind {
      case CraftingShapeless => RewriteAllSame(r.ingredients);
      case CraftingShaped => RewriteAllSame(r.ingredients);
      case Furnace => RewriteSame(r.fuel); RewriteFixedSame(1, r.ingredients);
      case Stonecutter => RewriteFixedSame(1, r.ingredients);
      case Smithing => RewriteFixedSame(3, r.ingredients);
    }
  }
}
