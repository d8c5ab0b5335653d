/**
  Slot displays and recipe displays: trees whose nodes are dispatched by a registry id. The writers
  replace a wrong number of children or ingredients by empty displays, so reading back gives a repaired
  tree with the same bytes.
 */
module Displays {
  import opened Bytes
  import opened Numeric
  import opened VarNumeric
  import opened Arrays

  // ----- identifiers

  const COLON: byte := 58

  datatype Identifier = Identifier(space: bytes, path: bytes) {
    function ToString(): (s: bytes)
      ensures COLON in s
    {
      space + [COLON] + path
    }
  }

  /** The index of the first colon, or the length. */
  function FindColon(s: bytes): (pos: nat)
    ensures pos <= |s|
    ensures pos < |s| ==> s[pos] == COLON
    ensures forall i :: 0 <= i < pos ==> s[i] != COLON
  {
    if s == [] || s[0] == COLON then 0 else 1 + FindColon(s[1..])
  }

  /** A text without a colon makes the constructor throw. */
  function ParseIdentifier(s: bytes): Option<Identifier> {
    var pos := FindColon(s);
    if pos == |s| then None else Some(Identifier(s[..pos], s[pos + 1..]))
  }

  /** Parsing the text of an identifier gives the same text, and the same parts exactly when the namespace
      has no colon. */
  lemma IdentifierRoundTrip(id: Identifier)
    ensures ParseIdentifier(id.ToString()).Some?
    ensures ParseIdentifier(id.ToString()).value.ToString() == id.ToString()
    ensures ParseIdentifier(id.ToString()).value == id <==> COLON !in id.space
  {
    var s := id.ToString();
    var pos := FindColon(s);
    assert s[|id.space|] == COLON;
    assert s[..pos] + [COLON] + s[pos + 1..] == s;
    if pos == |id.space| {
      assert s[..pos] == id.space && s[pos + 1..] == id.path;
    } else {
      assert pos < |id.space| && s[pos] == id.space[pos];
    }
  }

  function DecIdentifier(bs: bytes): (p: Parsed<Identifier>)
    ensures p.Got? ==> |p.rest| < |bs|
  {
    var (s, rest) :- DecString(bs);
    if ParseIdentifier(s).None? then Fail else Got(ParseIdentifier(s).value, rest)
  }

  /** The identifier that `readIdentifier` gives for a written one. */
  function Reparsed(id: Identifier): (r: Identifier)
    ensures r.ToString() == id.ToString()
  {
    IdentifierRoundTrip(id);
    ParseIdentifier(id.ToString()).value
  }

  // ----- registries

  /** Types are numbered by name; a number that no type has stands for the default type. */
  datatype Registry<!K(==)> = Registry(data: map<K, int>, defaultKey: K) {
    ghost predicate Stands(value: int, k: K) {
      if exists k' :: k' in data && data[k'] == value then k in data && data[k] == value else k == defaultKey
    }

    ghost predicate Distinct() {
      forall k, k' :: k in data && k' in data && data[k] == data[k'] ==> k == k'
    }
  }

  /** `getIdentifierFromValue`: a search in no particular order. */
  method GetIdentifierFromValue<K>(registry: Registry<K>, value: int) returns (k: K)
    ensures registry.Stands(value, k)
  {
    var todo := registry.data.Keys;
    while todo != {}
      invariant todo <= registry.data.Keys
      invariant forall k' :: k' in registry.data && registry.data[k'] == value ==> k' in todo
      decreases todo
    {
      k :| k in todo;
      if registry.data[k] == value {
        return;
      }
      todo := todo - {k};
    }
    k := registry.defaultKey;
  }

  datatype SlotKind = Empty | AnyFuel | Item | ItemStack | Tag | SmithingTrim | WithRemainder | Composite

  datatype RecipeKind = CraftingShapeless | CraftingShaped | Furnace | Stonecutter | Smithing

  const SLOTS := Registry(map[Empty := 0, AnyFuel := 1, Item := 2, ItemStack := 3, Tag := 4, SmithingTrim := 5,
                              WithRemainder := 6, Composite := 7], Empty)

  const RECIPES := Registry(map[CraftingShapeless := 0, CraftingShaped := 1, Furnace := 2, Stonecutter := 3,
                                Smithing := 4], CraftingShapeless)

  function SlotKindOf(value: int): SlotKind {
    match value
    case 1 => AnyFuel
    case 2 => Item
    case 3 => ItemStack
    case 4 => Tag
    case 5 => SmithingTrim
    case 6 => WithRemainder
    case 7 => Composite
    case _ => Empty
  }

  function RecipeKindOf(value: int): RecipeKind {
    match value
    case 1 => CraftingShaped
    case 2 => Furnace
    case 3 => Stonecutter
    case 4 => Smithing
    case _ => CraftingShapeless
  }

  /** The two registries number their types one to one, and any search finds the type of a number. */
  lemma SlotIds(value: int, k: SlotKind)
    ensures SLOTS.Distinct() && k in SLOTS.data
    ensures SLOTS.Stands(value, k) <==> k == SlotKindOf(value)
    ensures SlotKindOf(SLOTS.data[k]) == k
  {
    assert SLOTS.data[SlotKindOf(value)] == value || !exists k' :: k' in SLOTS.data && SLOTS.data[k'] == value;
  }

  lemma RecipeIds(value: int, k: RecipeKind)
    ensures RECIPES.Distinct() && k in RECIPES.data
    ensures RECIPES.Stands(value, k) <==> k == RecipeKindOf(value)
    ensures RecipeKindOf(RECIPES.data[k]) == k
  {
    assert RECIPES.data[RecipeKindOf(value)] == value
           || !exists k' :: k' in RECIPES.data && RECIPES.data[k'] == value;
  }

  function SlotId(k: SlotKind): (v: int32) {
    SlotIds(0, k);
    SLOTS.data[k]
  }

  function RecipeId(k: RecipeKind): (v: int32) {
    RecipeIds(0, k);
    RECIPES.data[k]
  }

  // ----- slot displays

  /** "minecraft:placeholder" */
  const PLACEHOLDER := Identifier([109, 105, 110, 101, 99, 114, 97, 102, 116],
                                  [112, 108, 97, 99, 101, 104, 111, 108, 100, 101, 114])

  /** The bytes of an empty `Slot`. */
  const EMPTY_STACK: bytes := [0]

  /** `itemStack` stands for the bytes that the slot's own codec writes. */
  datatype SlotDisplay = SlotDisplay(kind: SlotKind, itemType: int32, itemStack: bytes, tag: Identifier,
                                     children: seq<SlotDisplay>)

  /** A node of which only the type was set. */
  function Blank(kind: SlotKind): SlotDisplay {
    SlotDisplay(kind, 0, EMPTY_STACK, PLACEHOLDER, [])
  }

  function Blanks(n: nat): (ds: seq<SlotDisplay>)
    ensures |ds| == n
  {
    if n == 0 then [] else [Blank(Empty)] + Blanks(n - 1)
  }

  /** `SlotDisplay::toBytes`. */
  function EncSlot(d: SlotDisplay): bytes
    decreases d, 1
  {
    EncVarInt(SlotId(d.kind)) + EncSlotBody(d)
  }

  function EncEmpties(n: nat): bytes {
    if n == 0 then [] else EncVarInt(SlotId(Empty)) + EncEmpties(n - 1)
  }

  function EncSlotBody(d: SlotDisplay): bytes
    decreases d, 0
  {
    match d.kind
    case Empty => []
    case AnyFuel => []
    case Item => EncVarInt(d.itemType)
    case ItemStack => d.itemStack
    case Tag => EncString(d.tag.ToString())
    case SmithingTrim => if |d.children| != 3 then EncEmpties(3) else EncSlots(d.children)
    case WithRemainder => if |d.children| != 2 then EncEmpties(2) else EncSlots(d.children)
    case Composite => EncVarInt(SizeAsInt(|d.children|)) + EncSlots(d.children)
  }

  function EncSlots(ds: seq<SlotDisplay>): bytes
    decreases ds, 0
  {
    if ds == [] then [] else EncSlot(ds[0]) + EncSlots(ds[1..])
  }

  /** `readSlotDisplay`: every node consumes at least the byte of its id. */
  function DecSlot(bs: bytes): (p: Parsed<SlotDisplay>)
    ensures p.Got? ==> |p.rest| < |bs|
    decreases |bs|, 0
  {
    var (id, rest) :- DecVarInt(bs);
    DecSlotBody(SlotKindOf(id), rest)
  }

  function DecSlotBody(kind: SlotKind, bs: bytes): (p: Parsed<SlotDisplay>)
    ensures p.Got? ==> |p.rest| <= |bs|
    decreases |bs|, 2
  {
    match kind
    case Item => (var (t, rest) :- DecVarInt(bs); Got(Blank(Item).(itemType := t), rest))
    case Tag => (var (id, rest) :- DecIdentifier(bs); Got(Blank(Tag).(tag := id), rest))
    case SmithingTrim => (var (ds, rest) :- DecSlots(3, bs); Got(Blank(SmithingTrim).(children := ds), rest))
    case WithRemainder => (var (ds, rest) :- DecSlots(2, bs); Got(Blank(WithRemainder).(children := ds), rest))
    case Composite =>
      (var (n, rest) :- DecVarInt(bs);
       var (ds, rest') :- if n < 0 then Fail else DecSlots(n, rest);
       Got(Blank(Composite).(children := ds), rest'))
    case _ => Got(Blank(kind), bs)
  }

  function DecSlots(n: nat, bs: bytes): (p: Parsed<seq<SlotDisplay>>)
    ensures p.Got? ==> |p.value| == n && |p.rest| <= |bs|
    decreases |bs|, 1, n
  {
    if n == 0 then Got([], bs) else
      var (d, rest) :- DecSlot(bs);
      var (ds, rest') :- DecSlots(n - 1, rest);
      Got([d] + ds, rest')
  }

  // ----- reading back

  /** The tree that the bytes of `d` carry: unused fields are reset, and wrong numbers of children are
      repaired. */
  function Repaired(d: SlotDisplay): (r: SlotDisplay)
    ensures r.kind == d.kind
    decreases d, 0
  {
    match d.kind
    case Item => Blank(Item).(itemType := d.itemType)
    case Tag => Blank(Tag).(tag := Reparsed(d.tag))
    case SmithingTrim =>
      Blank(SmithingTrim).(children := if |d.children| != 3 then Blanks(3) else RepairedAll(d.children))
    case WithRemainder =>
      Blank(WithRemainder).(children := if |d.children| != 2 then Blanks(2) else RepairedAll(d.children))
    case Composite => Blank(Composite).(children := RepairedAll(d.children))
    case _ => Blank(d.kind)
  }

  function RepairedAll(ds: seq<SlotDisplay>): (r: seq<SlotDisplay>)
    ensures |r| == |ds|
    decreases ds, 0
  {
    if ds == [] then [] else [Repaired(ds[0])] + RepairedAll(ds[1..])
  }

  /** No item stack among the nodes that are written, and all counts fit an `int`. */
  predicate Readable(d: SlotDisplay)
    decreases d, 0
  {
    match d.kind
    case ItemStack => false
    case Tag => |d.tag.ToString()| < TWO_31
    case SmithingTrim => |d.children| == 3 ==> AllReadable(d.children)
    case WithRemainder => |d.children| == 2 ==> AllReadable(d.children)
    case Composite => |d.children| < TWO_31 && AllReadable(d.children)
    case _ => true
  }

  predicate AllReadable(ds: seq<SlotDisplay>)
    decreases ds, 0
  {
    ds == [] || (Readable(ds[0]) && AllReadable(ds[1..]))
  }

  lemma EmptyRoundTrip(rest: bytes)
    ensures DecSlot(EncVarInt(SlotId(Empty)) + rest) == Got(Blank(Empty), rest)
  {
    hide EncVarInt, DecVarInt;
    VarIntRoundTrip(SlotId(Empty), rest);
    SlotIds(0, Empty);
  }

  lemma {:induction false} BlanksRoundTrip(n: nat, rest: bytes)
    ensures DecSlots(n, EncEmpties(n) + rest) == Got(Blanks(n), rest)
  {
    hide EncVarInt, DecSlot;
    if n == 0 {
      assert EncEmpties(0) + rest == rest;
    } else {
      BlanksRoundTrip(n - 1, rest);
      var tail := EncEmpties(n - 1) + rest;
      assert EncEmpties(n) + rest == EncVarInt(SlotId(Empty)) + tail;
      EmptyRoundTrip(tail);
    }
  }

  lemma {:induction false} RewriteBlanksSame(n: nat)
    ensures EncSlots(Blanks(n)) == EncEmpties(n)
  {
    hide EncVarInt;
    if n == 0 {
    } else {
      RewriteBlanksSame(n - 1);
      assert Blanks(n)[1..] == Blanks(n - 1);
      assert EncSlot(Blank(Empty)) == EncVarInt(SlotId(Empty)) + EncSlotBody(Blank(Empty));
    }
  }

  /** Reading the bytes of a display consumes exactly those bytes and gives the repaired tree. */
  lemma {:induction false} SlotRoundTrip(d: SlotDisplay, rest: bytes)
    requires Readable(d)
    ensures DecSlot(EncSlot(d) + rest) == Got(Repaired(d), rest)
    decreases d, 1
  {
    hide EncVarInt, DecVarInt, EncSlotBody, DecSlotBody, Readable, Repaired;
    var tail := EncSlotBody(d) + rest;
    assert EncSlot(d) + rest == EncVarInt(SlotId(d.kind)) + tail;
    VarIntRoundTrip(SlotId(d.kind), tail);
    SlotIds(0, d.kind);
    BodyRoundTrip(d, rest);
  }

  lemma {:induction false} BodyRoundTrip(d: SlotDisplay, rest: bytes)
    requires Readable(d)
    ensures DecSlotBody(d.kind, EncSlotBody(d) + rest) == Got(Repaired(d), rest)
    decreases d, 0
  {
    hide EncVarInt, DecVarInt, EncString, DecString, EncSlots, DecSlots, EncEmpties, RepairedAll, AllReadable;
    match d.kind {
      case Item => VarIntRoundTrip(d.itemType, rest);
      case Tag =>
        StringRoundTrip(d.tag.ToString(), rest);
        IdentifierRoundTrip(d.tag);
      case SmithingTrim => FixedRoundTrip(d, 3, rest);
      case WithRemainder => FixedRoundTrip(d, 2, rest);
      case Composite =>
        var body := EncSlots(d.children) + rest;
        assert EncSlotBody(d) + rest == EncVarInt(SizeAsInt(|d.children|)) + body;
        VarIntRoundTrip(|d.children|, body);
        SlotsRoundTrip(d.children, rest);
      case ItemStack =>
      case Empty => assert EncSlotBody(d) + rest == rest;
      case AnyFuel => assert EncSlotBody(d) + rest == rest;
    }
  }

  lemma {:induction false} FixedRoundTrip(d: SlotDisplay, n: nat, rest: bytes)
    requires |d.children| == n ==> AllReadable(d.children)
    ensures DecSlots(n, (if |d.children| != n then EncEmpties(n) else EncSlots(d.children)) + rest)
            == Got(if |d.children| != n then Blanks(n) else RepairedAll(d.children), rest)
    decreases d.children, 1
  {
    if |d.children| != n {
      BlanksRoundTrip(n, rest);
    } else {
      SlotsRoundTrip(d.children, rest);
    }
  }

  lemma {:induction false} SlotsRoundTrip(ds: seq<SlotDisplay>, rest: bytes)
    requires AllReadable(ds)
    ensures DecSlots(|ds|, EncSlots(ds) + rest) == Got(RepairedAll(ds), rest)
    decreases ds, 0
  {
    hide EncSlot, DecSlot, Readable, Repaired;
    if ds == [] {
      assert EncSlots(ds) + rest == rest;
    } else {
      var tail := EncSlots(ds[1..]) + rest;
      assert EncSlots(ds) + rest == EncSlot(ds[0]) + tail;
      SlotRoundTrip(ds[0], tail);
      SlotsRoundTrip(ds[1..], rest);
    }
  }

  /** Writing the repaired tree gives the same bytes. */
  lemma {:induction false} RewriteSame(d: SlotDisplay)
    requires Readable(d)
    ensures EncSlot(Repaired(d)) == EncSlot(d)
    decreases d, 1
  {
    hide EncVarInt, EncString, RepairedAll, AllReadable;
    match d.kind {
      case SmithingTrim =>
        if |d.children| != 3 { RewriteBlanksSame(3); } else { RewriteAllSame(d.children); }
      case WithRemainder =>
        if |d.children| != 2 { RewriteBlanksSame(2); } else { RewriteAllSame(d.children); }
      case Composite => RewriteAllSame(d.children);
      case _ =>
    }
  }

  lemma {:induction false} RewriteAllSame(ds: seq<SlotDisplay>)
    requires AllReadable(ds)
    ensures EncSlots(RepairedAll(ds)) == EncSlots(ds)
    decreases ds, 0
  {
    hide EncSlot, Readable, Repaired;
    if ds == [] {
    } else {
      RewriteSame(ds[0]);
      RewriteAllSame(ds[1..]);
      assert RepairedAll(ds)[1..] == RepairedAll(ds[1..]);
    }
  }

  /** Item stacks are written with their bytes and read without: those bytes are left unread. */
  lemma ItemStackIsNotReadBack(d: SlotDisplay, rest: bytes)
    requires d.kind == ItemStack
    ensures DecSlot(EncSlot(d) + rest) == Got(Blank(ItemStack), d.itemStack + rest)
  {
    hide EncVarInt, DecVarInt;
    assert EncSlot(d) + rest == EncVarInt(SlotId(ItemStack)) + (d.itemStack + rest);
    VarIntRoundTrip(SlotId(ItemStack), d.itemStack + rest);
    SlotIds(0, ItemStack);
  }
}
