/**
  The bytes of every slot display and recipe display, written out with their type numbers as literals, and
  what unknown numbers are read as.
 */
module DisplayBytes {
  import opened Bytes
  import opened Numeric
  import opened VarNumeric
  import opened Arrays
  import opened NumberBytes
  import opened Displays
  import opened Recipes

  // ----- slot displays

  /** Displays one after the other. */
  function SlotsBytes(ds: seq<SlotDisplay>): bytes {
    if ds == [] then [] else SlotsBytes(ds[..|ds| - 1]) + EncSlot(ds[|ds| - 1])
  }

  lemma {:induction false} OneMoreSlot(ds: seq<SlotDisplay>)
    requires ds != []
    ensures EncSlots(ds) == EncSlots(ds[..|ds| - 1]) + EncSlot(ds[|ds| - 1])
  {
    hide EncSlot;
    if |ds| == 1 {
      assert ds[..0] == [];
    } else {
      OneMoreSlot(ds[1..]);
      assert ds[1..][..|ds| - 2] == ds[..|ds| - 1][1..];
    }
  }

  lemma {:induction false} SlotsAreSlotsBytes(ds: seq<SlotDisplay>)
    ensures EncSlots(ds) == SlotsBytes(ds)
  {
    hide EncSlot;
    if ds == [] {
    } else {
      OneMoreSlot(ds);
      SlotsAreSlotsBytes(ds[..|ds| - 1]);
    }
  }

  lemma KindBytes(k: SlotKind)
    ensures EncVarInt(SlotId(k))
            == match k
               case Empty => [0]
               case AnyFuel => [1]
               case Item => [2]
               case ItemStack => [3]
               case Tag => [4]
               case SmithingTrim => [5]
               case WithRemainder => [6]
               case Composite => [7]
  {
    SmallVarInt(SlotId(k));
    hide EncVarInt;
  }

  lemma EmptiesBytes()
    ensures EncEmpties(1) == [0] && EncEmpties(2) == [0, 0] && EncEmpties(3) == [0, 0, 0]
  {
    hide EncVarInt;
    KindBytes(Empty);
    assert EncEmpties(0) == [];
  }

  lemma SizeBytes(n: nat)
    requires n < 0x8000_0000
    ensures EncVarInt(SizeAsInt(n)) == VarBytes(n)
  {
    SizeIsCongruent(n);
    hide VarBytes;
  }

  /** A slot display is its number and what its type has. A trim with other than three children, and a remainder
      with other than two, has as many empty displays instead. */
  lemma SlotBytes(d: SlotDisplay)
    requires |d.children| < 0x8000_0000 && |d.tag.space| + |d.tag.path| + 1 < 0x8000_0000
    ensures var bs, children := EncSlot(d), SlotsBytes(d.children);
            && (d.kind.Empty? ==> bs == [0])
            && (d.kind.AnyFuel? ==> bs == [1])
            && (d.kind.Item? ==> bs == [2] + EncVarInt(d.itemType))
            && (d.kind.ItemStack? ==> bs == [3] + d.itemStack)
            && (d.kind.Tag? ==>
                  bs == [4] + (VarBytes(|d.tag.space| + 1 + |d.tag.path|) + (d.tag.space + [58] + d.tag.path)))
            && (d.kind.SmithingTrim? ==> bs == if |d.children| == 3 then [5] + children else [5, 0, 0, 0])
            && (d.kind.WithRemainder? ==> bs == if |d.children| == 2 then [6] + children else [6, 0, 0])
            && (d.kind.Composite? ==> bs == [7] + (VarBytes(|d.children|) + children))
  {
    hide EncVarInt, EncSlots, SlotsBytes, EncEmpties, VarBytes, EncString;
    KindBytes(d.kind);
    SlotsAreSlotsBytes(d.children);
    EmptiesBytes();
    SizeIsCongruent(|d.children|);
    TextBytes(d.tag.ToString());
    SizeBytes(|d.children|);
  }

  /** A number that no type has reads as the empty display, and consumes nothing but the number. */
  lemma UnknownSlotIsEmpty(id: int32, rest: bytes)
    requires id < 0 || id > 7
    ensures DecSlot(EncVarInt(id) + rest) == Got(Blank(Empty), rest)
  {
    hide EncVarInt, DecVarInt;
    VarIntRoundTrip(id, rest);
  }

  /** What a reader leaves alone: no children, the tag `minecraft:placeholder`, an empty stack. */
  lemma PlaceholderText(kind: SlotKind)
    ensures Blank(kind).tag == PLACEHOLDER && Blank(kind).children == [] && Blank(kind).itemStack == [0]
    ensures |PLACEHOLDER.space| == 9 && forall i :: 0 <= i < 9 ==> PLACEHOLDER.space[i] == "minecraft"[i] as int
    ensures |PLACEHOLDER.path| == 11 && forall i :: 0 <= i < 11 ==> PLACEHOLDER.path[i] == "placeholder"[i] as int
  {
  }

  // ----- recipe displays

  lemma RecipeKindBytes(k: RecipeKind)
    ensures EncVarInt(RecipeId(k))
            == match k
               case CraftingShapeless => [0]
               case CraftingShaped => [1]
               case Furnace => [2]
               case Stonecutter => [3]
               case Smithing => [4]
  {
    SmallVarInt(RecipeId(k));
    hide EncVarInt;
  }

  /** The ingredients of a type that has `n` of them; a wrong number of ingredients is replaced. */
  function FixedBytes(n: nat, ds: seq<SlotDisplay>): bytes {
    if |ds| == n then SlotsBytes(ds) else Zeros(n)
  }

  lemma FixedIsFixedBytes(n: nat, ds: seq<SlotDisplay>)
    requires n == 1 || n == 3
    ensures EncFixedSlots(n, ds) == FixedBytes(n, ds)
  {
    hide EncSlots, SlotsBytes, EncEmpties;
    EmptiesBytes();
    SlotsAreSlotsBytes(ds);
  }

  /** A recipe display is its number, what its type has, in this order, and for every type the result and the
      crafting station. The experience of a furnace is written high byte first. */
  lemma RecipeBytes(r: RecipeDisplay)
    requires |r.ingredients| < 0x8000_0000
    ensures var bs, outcome := EncRecipe(r), EncSlot(r.result) + EncSlot(r.craftingStation);
            var counted := VarBytes(|r.ingredients|) + SlotsBytes(r.ingredients);
            && (r.kind.CraftingShapeless? ==> bs == [0] + (counted + outcome))
            && (r.kind.CraftingShaped? ==>
                  bs == [1] + (EncVarInt(r.width) + (EncVarInt(r.height) + (counted + outcome))))
            && (r.kind.Furnace? ==>
                  bs == [2] + (FixedBytes(1, r.ingredients) + (EncSlot(r.fuel) + (outcome
                               + (EncVarInt(r.cookingTime) + EncNum(true, 4, r.experience))))))
            && (r.kind.Stonecutter? ==> bs == [3] + (FixedBytes(1, r.ingredients) + outcome))
            && (r.kind.Smithing? ==> bs == [4] + (FixedBytes(3, r.ingredients) + outcome))
  {
    hide EncVarInt, EncSlot, EncSlots, SlotsBytes, EncFixedSlots, FixedBytes, VarBytes, EncNum;
    RecipeKindBytes(r.kind);
    SlotsAreSlotsBytes(r.ingredients);
    SizeBytes(|r.ingredients|);
    FixedIsFixedBytes(1, r.ingredients);
    FixedIsFixedBytes(3, r.ingredients);
  }

  /** A number that no type has reads as a shapeless recipe. */
  lemma UnknownRecipeIsShapeless(be: bool, id: int32, rest: bytes)
    requires id < 0 || id > 4
    ensures DecRecipe(be, EncVarInt(id) + rest) == DecRecipe(be, [0] + rest)
  {
    hide EncVarInt, DecVarInt, DecRecipeBody;
    VarIntRoundTrip(id, rest);
    VarIntRoundTrip(0, rest);
    SmallVarInt(0);
  }
}
