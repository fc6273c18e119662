/** The Ingredient model class: its fields, its constructors and toString. */
module IngredientModel {
  import opened Common

  /** An ingredient line of a recipe. The Java field is a double; here the
      quantity is a real, and how a quantity is written and read back as
      text is the QuantityCodec below. */
  datatype Ingredient = Ingredient(
    id: Option<int>,
    name: Option<string>,
    quantity: real,
    unit: Option<string>,
    notes: Option<string>)

  /** `String.valueOf(double)` and `Double.parseDouble`, which the model
      takes as given rather than reimplementing floating-point text. */
  datatype QuantityCodec = QuantityCodec(render: real -> string, parse: string -> Option<real>)

  /** `new Ingredient()` */
  function NewIngredient(): (i: Ingredient)
    ensures i.id.None? && i.name.None? && i.unit.None? && i.notes.None? && i.quantity == 0.0
  {
    Ingredient(None, None, 0.0, None, None)
  }

  /** `new Ingredient(name, quantity, unit)`: notes stay null. */
  function NewIngredientWith(name: Option<string>, quantity: real, unit: Option<string>): (i: Ingredient)
    ensures i.name == name && i.quantity == quantity && i.unit == unit
    ensures i.notes.None? && i.id.None?
  {
    Ingredient(None, name, quantity, unit, None)
  }

  /** A string field that is non-null and non-empty. */
  predicate HasText(s: Option<string>) {
    s.Some? && |s.value| > 0
  }

  /** How StringBuilder.append renders a possibly null string. */
  function NullText(s: Option<string>): string {
    if s.None? then "null" else s.value
  }

  predicate EndsWith(s: string, suffix: string) {
    |suffix| <= |s| && s[|s| - |suffix|..] == suffix
  }

  /** `toString()`: "<quantity>[ <unit>] " when the quantity is positive,
      then the name, then " (<notes>)" when there are notes. */
  function ToString(i: Ingredient, codec: QuantityCodec): string {
    var suffix := if HasText(i.notes) then " (" + i.notes.value + ")" else "";
    if i.quantity > 0.0 then
      var unitPart := if HasText(i.unit) then " " + i.unit.value else "";
      codec.render(i.quantity) + unitPart + " " + NullText(i.name) + suffix
    else
      NullText(i.name) + suffix
  }

  /** The text of an ingredient starts with "quantity [unit] name" when the
      quantity is positive, and with the name otherwise (a null name prints
      as "null"). */
  lemma ToStringStart(i: Ingredient, codec: QuantityCodec)
    ensures i.quantity <= 0.0 ==> NullText(i.name) <= ToString(i, codec)
    ensures i.quantity > 0.0 ==> codec.render(i.quantity) <= ToString(i, codec)
    ensures i.quantity > 0.0 && HasText(i.unit) ==>
              codec.render(i.quantity) + " " + i.unit.value + " " + NullText(i.name) <= ToString(i, codec)
    ensures i.quantity > 0.0 && !HasText(i.unit) ==>
              codec.render(i.quantity) + " " + NullText(i.name) <= ToString(i, codec)
  {
    if i.quantity <= 0.0 {
      StartNoQuantity(i, codec);
    } else if HasText(i.unit) {
      StartWithUnit(i, codec);
    } else {
      StartWithoutUnit(i, codec);
    }
  }

  lemma StartNoQuantity(i: Ingredient, codec: QuantityCodec)
    requires i.quantity <= 0.0
    ensures NullText(i.name) <= ToString(i, codec)
  {
    var suffix := if HasText(i.notes) then " (" + i.notes.value + ")" else "";
    StartsWith(NullText(i.name), [], suffix);
  }

  lemma StartWithUnit(i: Ingredient, codec: QuantityCodec)
    requires i.quantity > 0.0 && HasText(i.unit)
    ensures codec.render(i.quantity) <= ToString(i, codec)
    ensures codec.render(i.quantity) + " " + i.unit.value + " " + NullText(i.name) <= ToString(i, codec)
  {
    var q, u, name := codec.render(i.quantity), i.unit.value, NullText(i.name);
    var suffix := if HasText(i.notes) then " (" + i.notes.value + ")" else "";
    StartsWith(q, " " + u + " " + name, suffix);
    assert q + (" " + u + " " + name) == q + " " + u + " " + name;
    assert ToString(i, codec) == q + (" " + u + " " + name) + suffix;
  }

  lemma StartWithoutUnit(i: Ingredient, codec: QuantityCodec)
    requires i.quantity > 0.0 && !HasText(i.unit)
    ensures codec.render(i.quantity) <= ToString(i, codec)
    ensures codec.render(i.quantity) + " " + NullText(i.name) <= ToString(i, codec)
  {
    var q, name := codec.render(i.quantity), NullText(i.name);
    var suffix := if HasText(i.notes) then " (" + i.notes.value + ")" else "";
    StartsWith(q, " " + name, suffix);
    assert ToString(i, codec) == q + (" " + name) + suffix;
  }

  lemma StartsWith(a: string, b: string, c: string)
    ensures a <= a + b + c && a + b <= a + b + c
  {
  }

  /** The text of an ingredient ends with "name (notes)" when there are
      notes, and with the name otherwise. */
  lemma ToStringEnd(i: Ingredient, codec: QuantityCodec)
    ensures HasText(i.notes) ==> EndsWith(ToString(i, codec), NullText(i.name) + " (" + i.notes.value + ")")
    ensures !HasText(i.notes) ==> EndsWith(ToString(i, codec), NullText(i.name))
  {
    var name := NullText(i.name);
    var suffix := if HasText(i.notes) then " (" + i.notes.value + ")" else "";
    if i.quantity > 0.0 {
      var unitPart := if HasText(i.unit) then " " + i.unit.value else "";
      Concat3(codec.render(i.quantity) + unitPart + " ", name, suffix);
    } else {
      Concat3([], name, suffix);
      assert [] + name + suffix == name + suffix;
    }
  }

  /** Nothing else is printed: the text is exactly as long as its parts, so
      with ToStringStart and ToStringEnd it is fixed. In particular the unit
      shows up only when the quantity is positive and the unit non-empty. */
  lemma ToStringLength(i: Ingredient, codec: QuantityCodec)
    ensures |ToString(i, codec)|
         == (if i.quantity > 0.0 then |codec.render(i.quantity)| + 1 + (if HasText(i.unit) then 1 + |i.unit.value| else 0) else 0)
            + |NullText(i.name)|
            + (if HasText(i.notes) then 3 + |i.notes.value| else 0)
  {
  }

  /** The first part, the first two parts and the last two parts of a
      three-part concatenation sit at its ends. */
  lemma Concat3(a: string, b: string, c: string)
    ensures a <= a + b + c && a + b <= a + b + c
    ensures EndsWith(a + b + c, b + c)
    ensures c == [] ==> EndsWith(a + b + c, b)
  {
    assert a + b + c == a + (b + c);
    if c == [] {
      assert a + b + c == a + b;
    }
  }
}
