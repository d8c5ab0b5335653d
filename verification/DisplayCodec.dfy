/**
  The display codecs step by step: each writer fills a buffer of its own whose bytes are appended to the
  enclosing one, and each reader fills a record from the buffer it is given.
 */
module DisplayCodec {
  import opened Bytes
  import opened BlockBuffer
  import opened Numeric
  import opened VarNumeric
  import opened Arrays
  import opened Buffers
  import opened Displays
  import opened Recipes

  method WriteSlotDisplay(buffer: ByteBuffer, d: SlotDisplay)
    requires buffer.Valid()
    modifies buffer.internal
    ensures buffer.Wrote(EncSlot(d))
    decreases d, 3
  {
    hide Holds, EncSlot;
    var data := SlotToBytes(d);
    buffer.WriteBytes(data);
  }

  /** `SlotDisplay::toBytes`. */
  method SlotToBytes(d: SlotDisplay) returns (data: bytes)
    ensures data == EncSlot(d)
    decreases d, 2
  {
    hide Holds, EncVarInt, EncSlotBody;
    var buffer := new ByteBuffer();
    SlotIds(0, d.kind);
    buffer.WriteVarInt(SlotId(d.kind));
    var body := SlotBodyToBytes(d);
    buffer.WriteBytes(body);
    data := buffer.GetBytes();
  }

  /** The writer that the registry has for the type. */
  method SlotBodyToBytes(d: SlotDisplay) returns (data: bytes)
    ensures data == EncSlotBody(d)
    decreases d, 1
  {
    hide Holds, EncVarInt, EncString, EncSlots, EncEmpties;
    var buffer := new ByteBuffer();
    match d.kind {
      case Empty =>
      case AnyFuel =>
      case Item => buffer.WriteVarInt(d.itemType);
      case ItemStack => buffer.WriteBytes(d.itemStack);
      case Tag => buffer.WriteString(d.tag.ToString());
      case SmithingTrim => WriteFixed(buffer, 3, d.children);
      case WithRemainder => WriteFixed(buffer, 2, d.children);
      case Composite =>
        buffer.WriteVarInt(SizeAsInt(|d.children|));
        WriteSlots(buffer, d.children);
    }
    data := buffer.GetBytes();
  }

  method WriteEmpties(buffer: ByteBuffer, n: nat)
    requires buffer.Valid()
    modifies buffer.internal
    ensures buffer.Wrote(EncEmpties(n))
  {
    hide Holds, EncVarInt;
    if n > 0 {
      buffer.WriteVarInt(SlotId(Empty));
      WriteEmpties(buffer, n - 1);
    }
  }

  /** A wrong number of children is replaced by empty displays. */
  method WriteFixed(buffer: ByteBuffer, n: nat, ds: seq<SlotDisplay>)
    requires buffer.Valid()
    modifies buffer.internal
    ensures buffer.Wrote(if |ds| != n then EncEmpties(n) else EncSlots(ds))
    decreases ds, 5
  {
    hide Holds, EncSlots, EncEmpties;
    if |ds| != n {
      WriteEmpties(buffer, n);
    } else {
      WriteSlots(buffer, ds);
    }
  }

  lemma EncSlotsEmpty()
    ensures EncSlots([]) == []
  {
  }

  lemma {:induction false} EncSlotsSnoc(ds: seq<SlotDisplay>, i: nat)
    requires i < |ds|
    ensures EncSlots(ds[..i + 1]) == EncSlots(ds[..i]) + EncSlot(ds[i])
  {
    hide EncSlot;
    if i == 0 {
      assert ds[..1][1..] == [] && ds[..0] == [];
      assert EncSlots(ds[..1]) == EncSlot(ds[0]) + EncSlots([]);
    } else {
      EncSlotsSnoc(ds[1..], i - 1);
      assert ds[..i + 1][1..] == ds[1..][..i];
      assert ds[..i][1..] == ds[1..][..i - 1];
    }
  }

  method WriteSlots(buffer: ByteBuffer, ds: seq<SlotDisplay>)
    requires buffer.Valid()
    modifies buffer.internal
    ensures buffer.Wrote(EncSlots(ds))
    decreases ds, 4
  {
    hide Holds, EncSlot, EncSlots;
    EncSlotsEmpty();
    for i := 0 to |ds|
      invariant buffer.Wrote(EncSlots(ds[..i]))
    {
      EncSlotsSnoc(ds, i);
      WriteSlotDisplay(buffer, ds[i]);
    }
    assert ds[..|ds|] == ds;
  }

  // ----- reading

  method ReadIdentifier(buffer: ByteBuffer) returns (r: Option<Identifier>)
    requires buffer.Valid()
    modifies buffer.internal
    ensures buffer.OnlyRead() && Delivers(DecIdentifier(old(buffer.Unread())), r, buffer.Unread())
  {
    hide Holds, DecString;
    var s :- buffer.ReadString();
    r := ParseIdentifier(s);
  }

  method ReadSlotDisplay(buffer: ByteBuffer) returns (r: Option<SlotDisplay>)
    requires buffer.Valid()
    modifies buffer.internal
    ensures buffer.OnlyRead() && Delivers(DecSlot(old(buffer.Unread())), r, buffer.Unread())
    decreases |buffer.Unread()|, 0
  {
    hide Holds, DecVarInt, DecSlotBody;
    var id :- buffer.ReadVarInt();
    var kind := GetIdentifierFromValue(SLOTS, id);
    SlotIds(id, kind);
    r := ReadSlotBody(buffer, kind);
  }

  /** The reader that the registry has for the type. */
  method ReadSlotBody(buffer: ByteBuffer, kind: SlotKind) returns (r: Option<SlotDisplay>)
    requires buffer.Valid()
    modifies buffer.internal
    ensures buffer.OnlyRead() && Delivers(DecSlotBody(kind, old(buffer.Unread())), r, buffer.Unread())
    decreases |buffer.Unread()|, 2
  {
    hide Holds, DecVarInt, DecIdentifier, DecSlots;
    var data := Blank(kind);
    match kind {
      case Empty =>
      case AnyFuel =>
      case Item =>
        var itemType :- buffer.ReadVarInt();
        data := data.(itemType := itemType);
      case ItemStack =>
      case Tag =>
        var tag :- ReadIdentifier(buffer);
        data := data.(tag := tag);
      case SmithingTrim =>
        var children :- ReadSlots(buffer, 3);
        data := data.(children := children);
      case WithRemainder =>
        var children :- ReadSlots(buffer, 2);
        data := data.(children := children);
      case Composite =>
        var n :- buffer.ReadVarInt();
        if n < 0 {
          return None;
        }
        var children :- ReadSlots(buffer, n);
        data := data.(children := children);
    }
    r := Some(data);
  }

  lemma NoSlots(bs: bytes)
    ensures DecSlots(0, bs) == Got([], bs)
  {
  }

  lemma PrependSlot(before: seq<SlotDisplay>, n: nat, bs: bytes)
    requires n > 0
    ensures var p := DecSlot(bs);
            && (p.Fail? ==> Prepend(before, DecSlots(n, bs)) == Fail)
            && (p.Got? ==> Prepend(before, DecSlots(n, bs)) == Prepend(before + [p.value], DecSlots(n - 1, p.rest)))
  {
    hide DecSlot;
    var p := DecSlot(bs);
    if p.Got? && DecSlots(n - 1, p.rest).Got? {
      var xs := DecSlots(n - 1, p.rest).value;
      assert before + ([p.value] + xs) == (before + [p.value]) + xs;
    }
  }

  method ReadSlots(buffer: ByteBuffer, n: nat) returns (r: Option<seq<SlotDisplay>>)
    requires buffer.Valid()
    modifies buffer.internal
    ensures buffer.OnlyRead() && Delivers(DecSlots(n, old(buffer.Unread())), r, buffer.Unread())
    decreases |buffer.Unread()|, 1
  {
    hide Holds, DecSlot, DecSlots;
    var result: seq<SlotDisplay> := [];
    NoSlots(buffer.Unread());
    ghost var start := |buffer.Unread()|;
    for i := 0 to n
      invariant buffer.OnlyRead() && |buffer.Unread()| <= start
      invariant DecSlots(n, old(buffer.Unread())) == Prepend(result, DecSlots(n - i, buffer.Unread()))
    {
      PrependSlot(result, n - i, buffer.Unread());
      var d :- ReadSlotDisplay(buffer);
      result := result + [d];
    }
    NoSlots(buffer.Unread());
    r := Some(result);
  }

  // ----- recipes

  method WritePrefixedSlots(buffer: ByteBuffer, ds: seq<SlotDisplay>)
    requires buffer.Valid()
    modifies buffer.internal
    ensures buffer.Wrote(EncPrefixedSlots(ds))
  {
    hide Holds, EncVarInt, EncSlots;
    buffer.WriteVarInt(SizeAsInt(|ds|));
    WriteSlots(buffer, ds);
  }

  method WriteFixedSlots(buffer: ByteBuffer, n: nat, ds: seq<SlotDisplay>)
    requires buffer.Valid()
    modifies buffer.internal
    ensures buffer.Wrote(EncFixedSlots(n, ds))
  {
    hide Holds, EncSlots, EncEmpties;
    WriteFixed(buffer, n, ds);
  }

  method WriteOutcome(buffer: ByteBuffer, r: RecipeDisplay)
    requires buffer.Valid()
    modifies buffer.internal
    ensures buffer.Wrote(EncOutcome(r))
  {
    hide Holds, EncSlot;
    WriteSlotDisplay(buffer, r.result);
    WriteSlotDisplay(buffer, r.craftingStation);
  }

  method WriteShaped(buffer: ByteBuffer, r: RecipeDisplay)
    requires buffer.Valid() && r.kind == CraftingShaped
    modifies buffer.internal
    ensures buffer.Wrote(EncRecipeBody(r))
  {
    hide Holds, EncVarInt, EncPrefixedSlots, EncOutcome;
    buffer.WriteVarInt(r.width);
    buffer.WriteVarInt(r.height);
    WritePrefixedSlots(buffer, r.ingredients);
    WriteOutcome(buffer, r);
  }

  method WriteFurnace(buffer: ByteBuffer, r: RecipeDisplay)
    requires buffer.Valid() && buffer.isBigEndian && r.kind == Furnace
    modifies buffer.internal
    ensures buffer.Wrote(EncRecipeBody(r))
  {
    hide Holds, EncVarInt, EncNum, EncSlot, EncFixedSlots, EncOutcome;
    WriteFixedSlots(buffer, 1, r.ingredients);
    WriteSlotDisplay(buffer, r.fuel);
    WriteOutcome(buffer, r);
    buffer.WriteVarInt(r.cookingTime);
    buffer.WriteNumeric(4, r.experience);
  }

  method WriteShapeless(buffer: ByteBuffer, r: RecipeDisplay)
    requires buffer.Valid() && r.kind == CraftingShapeless
    modifies buffer.internal
    ensures buffer.Wrote(EncRecipeBody(r))
  {
    hide Holds, EncPrefixedSlots, EncOutcome;
    WritePrefixedSlots(buffer, r.ingredients);
    WriteOutcome(buffer, r);
  }

  method WriteFixedRecipe(buffer: ByteBuffer, n: nat, r: RecipeDisplay)
    requires buffer.Valid() && (if r.kind == Stonecutter then n == 1 else r.kind == Smithing && n == 3)
    modifies buffer.internal
    ensures buffer.Wrote(EncRecipeBody(r))
  {
    hide Holds, EncFixedSlots, EncOutcome;
    WriteFixedSlots(buffer, n, r.ingredients);
    WriteOutcome(buffer, r);
  }

  /** The writer that the registry has for the type. */
  method RecipeBodyToBytes(r: RecipeDisplay) returns (data: bytes)
    ensures data == EncRecipeBody(r)
  {
    hide Holds, EncRecipeBody;
    var buffer := new ByteBuffer();
    match r.kind {
      case CraftingShapeless => WriteShapeless(buffer, r);
      case CraftingShaped => WriteShaped(buffer, r);
      case Furnace => WriteFurnace(buffer, r);
      case Stonecutter => WriteFixedRecipe(buffer, 1, r);
      case Smithing => WriteFixedRecipe(buffer, 3, r);
    }
    data := buffer.GetBytes();
  }

  /** `RecipeDisplay::toBytes`. */
  method RecipeToBytes(r: RecipeDisplay) returns (data: bytes)
    ensures data == EncRecipe(r)
  {
    hide Holds, EncVarInt, EncRecipeBody;
    var buffer := new ByteBuffer();
    RecipeIds(0, r.kind);
    buffer.WriteVarInt(RecipeId(r.kind));
    var body := RecipeBodyToBytes(r);
    buffer.WriteBytes(body);
    data := buffer.GetBytes();
  }

  method ReadPrefixedSlots(buffer: ByteBuffer) returns (r: Option<seq<SlotDisplay>>)
    requires buffer.Valid()
    modifies buffer.internal
    ensures buffer.OnlyRead() && Delivers(DecPrefixedSlots(old(buffer.Unread())), r, buffer.Unread())
  {
    hide Holds, DecVarInt, DecSlots;
    var n :- buffer.ReadVarInt();
    if n < 0 {
      return None;
    }
    r := ReadSlots(buffer, n);
  }

  method ReadOutcome(buffer: ByteBuffer, data: RecipeDisplay) returns (r: Option<RecipeDisplay>)
    requires buffer.Valid()
    modifies buffer.internal
    ensures buffer.OnlyRead() && Delivers(DecOutcome(data, old(buffer.Unread())), r, buffer.Unread())
  {
    hide Holds, DecSlot;
    var result :- ReadSlotDisplay(buffer);
    var station :- ReadSlotDisplay(buffer);
    r := Some(data.(result := result, craftingStation := station));
  }

  method ReadFurnaceTail(buffer: ByteBuffer, data: RecipeDisplay) returns (r: Option<RecipeDisplay>)
    requires buffer.Valid()
    modifies buffer.internal
    ensures buffer.OnlyRead()
    ensures Delivers(DecFurnaceTail(buffer.isBigEndian, data, old(buffer.Unread())), r, buffer.Unread())
  {
    hide Holds, DecVarInt, DecNum;
    var time :- buffer.ReadVarInt();
    var experience :- buffer.ReadNumeric(4);
    assert Range(4) == TWO_32;
    r := Some(data.(cookingTime := time, experience := experience));
  }

  /** The reader that the registry has for the type. */
  method ReadRecipeBody(buffer: ByteBuffer, kind: RecipeKind) returns (r: Option<RecipeDisplay>)
    requires buffer.Valid()
    modifies buffer.internal
    ensures buffer.OnlyRead()
    ensures Delivers(DecRecipeBody(buffer.isBigEndian, kind, old(buffer.Unread())), r, buffer.Unread())
  {
    hide Holds, DecVarInt, DecSlot, DecSlots, DecPrefixedSlots, DecOutcome, DecFurnaceTail;
    var data := BlankRecipe(kind);
    match kind {
      case CraftingShapeless =>
        var ingredients :- ReadPrefixedSlots(buffer);
        r := ReadOutcome(buffer, data.(ingredients := ingredients));
      case CraftingShaped =>
        var width :- buffer.ReadVarInt();
        var height :- buffer.ReadVarInt();
        var ingredients :- ReadPrefixedSlots(buffer);
        r := ReadOutcome(buffer, data.(width := width, height := height, ingredients := ingredients));
      case Furnace =>
        var ingredients :- ReadSlots(buffer, 1);
        var fuel :- ReadSlotDisplay(buffer);
        data :- ReadOutcome(buffer, data.(ingredients := ingredients, fuel := fuel));
        r := ReadFurnaceTail(buffer, data);
      case Stonecutter =>
        var ingredients :- ReadSlots(buffer, 1);
        r := ReadOutcome(buffer, data.(ingredients := ingredients));
      case Smithing =>
        var ingredients :- ReadSlots(buffer, 3);
        r := ReadOutcome(buffer, data.(ingredients := ingredients));
    }
  }

  method ReadRecipeDisplay(buffer: ByteBuffer) returns (r: Option<RecipeDisplay>)
    requires buffer.Valid()
    modifies buffer.internal
    ensures buffer.OnlyRead()
    ensures Delivers(DecRecipe(buffer.isBigEndian, old(buffer.Unread())), r, buffer.Unread())
  {
    hide Holds, DecVarInt, DecRecipeBody;
    var id :- buffer.ReadVarInt();
    var kind := GetIdentifierFromValue(RECIPES, id);
    RecipeIds(id, kind);
    r := ReadRecipeBody(buffer, kind);
  }
}
