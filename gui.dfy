/**
 * The input handling of the window (gui.py): checking the text the user
 * typed, building the arguments of a search, and the one-line text each shoe
 * is shown as in the list box, which is parsed back when the user removes the
 * selected item. The widgets themselves are not modelled; each handler's
 * text inputs are parameters.
 */
module Gui {
  import opened Wrappers
  import opened Strings
  import opened Models
  import opened DataStorage
  import opened Inventory

  /** The `ValueError`s the input checks raise, shown in an "Invalid Input"
    * dialog: "<field> is required.", `float`'s own message for text that is
    * not a number, and "Size must be greater than 0.". */
  datatype InputError = Required(field: string) | NotANumber(text: string) | NotPositive

  // Form checks

  /** `_validate_text`: the stripped value, or an error naming the field
    * when nothing but whitespace was typed. */
  function ValidateText(value: string, fieldName: string): (r: Result<string, InputError>)
    ensures r.Ok? <==> Trim(value) != []
    ensures r.Ok? ==> r.value == Trim(value) && IsTrimmed(r.value)
    ensures r.Err? ==> r.error == Required(fieldName)
  {
    var cleaned := Trim(value);
    if cleaned == [] then Err(Required(fieldName)) else Ok(cleaned)
  }

  /** Checking an already accepted value again accepts it unchanged. */
  lemma ValidateTextIdempotent(value: string, fieldName: string)
    requires ValidateText(value, fieldName).Ok?
    ensures ValidateText(ValidateText(value, fieldName).value, fieldName) == ValidateText(value, fieldName)
  {
    TrimFixedPoint(value);
  }

  /** `_parse_size`: strip, reject blank text, parse with `float`, reject a
    * size that is not greater than zero. */
  function ParseSizeInput(sizeText: string): (r: Result<Size, InputError>)
    ensures Trim(sizeText) == [] ==> r == Err(Required("Size"))
    ensures r.Ok? <==> Trim(sizeText) != [] && ParseSize(sizeText).Some? && IsPositive(ParseSize(sizeText).value)
    ensures r.Ok? ==> ParseSize(sizeText) == Some(r.value) && IsPositive(r.value)
  {
    var t := Trim(sizeText);
    TrimFixedPoint(sizeText);
    if t == [] then Err(Required("Size"))
    else
      match ParseSize(t)
      case None => Err(NotANumber(t))
      case Some(size) => if !IsPositive(size) then Err(NotPositive) else Ok(size)
  }

  /** The text a positive size is shown as is accepted as that size. */
  lemma ParseSizeInputAcceptsFormatted(s: Size)
    requires IsPositive(s)
    ensures ParseSizeInput(FormatSize(s)) == Ok(s)
  {
    FormatParseRoundTrip(s);
    TrimFixedPoint(FormatSize(s));
  }

  /** The checks `_on_add` makes before it builds the shoe, in its order:
    * brand, model, color, then size. */
  function ShoeFromForm(brand: string, model: string, sizeText: string, color: string): (r: Result<Shoe, InputError>)
    ensures r.Ok? ==> Storable(r.value) && IsPositive(r.value.size)
    ensures Trim(brand) == [] ==> r == Err(Required("Brand"))
  {
    match ValidateText(brand, "Brand")
    case Err(e) => Err(e)
    case Ok(b) =>
      match ValidateText(model, "Model")
      case Err(e) => Err(e)
      case Ok(m) =>
        match ValidateText(color, "Color")
        case Err(e) => Err(e)
        case Ok(c) =>
          match ParseSizeInput(sizeText)
          case Err(e) => Err(e)
          case Ok(size) => Ok(Shoe(b, m, size, c))
  }

  /** The form accepts exactly the inputs whose three text fields are not
    * blank and whose size text is a positive number, and builds the shoe
    * from the stripped texts. */
  lemma ShoeFromFormIff(brand: string, model: string, sizeText: string, color: string)
    ensures ShoeFromForm(brand, model, sizeText, color).Ok? <==>
      Trim(brand) != [] && Trim(model) != [] && Trim(color) != [] && ParseSizeInput(sizeText).Ok?
    ensures ShoeFromForm(brand, model, sizeText, color).Ok? ==>
      ShoeFromForm(brand, model, sizeText, color).value
        == Shoe(Trim(brand), Trim(model), ParseSizeInput(sizeText).value, Trim(color))
  {
  }

  /** Typing a storable, positive-sized shoe's own fields into the form
    * gives back that shoe. */
  lemma ShoeFromFormRoundTrip(shoe: Shoe)
    requires Storable(shoe) && IsPositive(shoe.size)
    ensures ShoeFromForm(shoe.brand, shoe.model, FormatSize(shoe.size), shoe.color) == Ok(shoe)
  {
    TrimFixedPoint(shoe.brand);
    TrimFixedPoint(shoe.model);
    TrimFixedPoint(shoe.color);
    ParseSizeInputAcceptsFormatted(shoe.size);
    ShoeFromFormIff(shoe.brand, shoe.model, FormatSize(shoe.size), shoe.color);
  }

  /** `_on_add`: check the form and, when it is valid, add the shoe. An
    * invalid form leaves the inventory and the file untouched. */
  method AddFromForm(manager: InventoryManager, brand: string, model: string, sizeText: string, color: string)
    returns (r: Result<Shoe, InputError>)
    modifies manager, manager.file
    ensures r == ShoeFromForm(brand, model, sizeText, color)
    ensures r.Ok? ==> manager.shoes == old(manager.shoes) + [r.value] && manager.Persisted()
    ensures r.Err? ==> manager.shoes == old(manager.shoes) && unchanged(manager.file)
  {
    r := ShoeFromForm(brand, model, sizeText, color);
    if r.Ok? {
      manager.AddShoe(r.value);
    }
  }

  /** An inventory filled only through the form stays storable, so the file
    * it is saved to loads back as the same list. */
  method AddFromFormKeepsStorable(manager: InventoryManager, brand: string, model: string, sizeText: string, color: string)
    returns (r: Result<Shoe, InputError>)
    requires forall i :: 0 <= i < |manager.shoes| ==> Storable(manager.shoes[i])
    modifies manager, manager.file
    ensures forall i :: 0 <= i < |manager.shoes| ==> Storable(manager.shoes[i])
    ensures r.Ok? ==> LoadResult(manager.file.rows) == Ok(manager.shoes)
  {
    r := AddFromForm(manager, brand, model, sizeText, color);
    if r.Ok? {
      StorableSnoc(old(manager.shoes), r.value);
      manager.PersistedLoadsBack();
    }
  }

  /** Appending a storable shoe to a storable list keeps it storable. */
  lemma StorableSnoc(shoes: seq<Shoe>, shoe: Shoe)
    requires forall i :: 0 <= i < |shoes| ==> Storable(shoes[i])
    requires Storable(shoe)
    ensures forall i :: 0 <= i < |shoes + [shoe]| ==> Storable((shoes + [shoe])[i])
  {
  }

  // Search box

  /** The arguments `_on_search` hands to `search`. */
  datatype SearchArgs = SearchArgs(brand: Option<string>, model: Option<string>, color: Option<string>, size: Option<Size>)

  /** `value.strip() or None` */
  function OrNone(value: string): (r: Option<string>)
    ensures r.None? <==> Trim(value) == []
    ensures r.Some? ==> r.value == Trim(value)
  {
    var t := Trim(value);
    if t == [] then None else Some(t)
  }

  /** `_on_search` up to the call of `search`: blank text boxes become
    * absent filters; the size box, when not blank, must hold a positive
    * number. */
  function SearchRequest(brand: string, model: string, color: string, sizeText: string): (r: Result<SearchArgs, InputError>)
    ensures r.Err? <==> Trim(sizeText) != [] && ParseSizeInput(sizeText).Err?
    ensures r.Ok? ==> (r.value.size.None? <==> Trim(sizeText) == [])
    ensures r.Ok? && r.value.size.Some? ==> IsPositive(r.value.size.value)
    ensures r.Ok? && r.value.size.Some? ==> ParseSizeInput(sizeText) == Ok(r.value.size.value)
    ensures r.Err? ==> r.error == ParseSizeInput(sizeText).error
  {
    var size: Result<Option<Size>, InputError> :=
      if Trim(sizeText) == [] then Ok(None)
      else match ParseSizeInput(sizeText)
        case Err(e) => Err(e)
        case Ok(s) => Ok(Some(s));
    match size
    case Err(e) => Err(e)
    case Ok(s) => Ok(SearchArgs(OrNone(brand), OrNone(model), OrNone(color), s))
  }

  /** Turning blank boxes into absent filters does not change the search:
    * it filters exactly as if the raw box texts were passed. */
  lemma SearchRequestQuery(brand: string, model: string, color: string, sizeText: string)
    requires SearchRequest(brand, model, color, sizeText).Ok?
    ensures var args := SearchRequest(brand, model, color, sizeText).value;
      MakeQuery(args.brand, args.model, args.color, args.size)
        == Query(QueryText(Some(brand)), QueryText(Some(model)), QueryText(Some(color)), args.size)
  {
    var args := SearchRequest(brand, model, color, sizeText).value;
    OrNoneQuery(brand);
    OrNoneQuery(model);
    OrNoneQuery(color);
  }

  lemma OrNoneQuery(value: string)
    ensures QueryText(OrNone(value)) == QueryText(Some(value))
  {
    TrimFixedPoint(value);
  }

  // List box text

  /** `"<name>: <value>"` */
  function Field(name: string, value: string): string {
    name + ": " + value
  }

  /** `a | b`: two pieces of the list text with the separator between. */
  function Joined(a: string, b: string): string {
    a + " | " + b
  }

  /** `_shoe_to_list_text`: `Brand: b | Model: m | Size: s | Color: c`, the
    * size written by the same rule as in the CSV file. */
  function ListText(shoe: Shoe): (text: string)
    ensures GoodValue(shoe.brand) && GoodValue(shoe.model) && GoodValue(shoe.color) ==>
      var parts := Split(text, '|');
      && |parts| == 4
      && FieldValue(parts[0]) == Some(shoe.brand) && FieldValue(parts[1]) == Some(shoe.model)
      && FieldValue(parts[2]) == Some(FormatSize(shoe.size)) && FieldValue(parts[3]) == Some(shoe.color)
  {
    var text := Joined(Field("Brand", shoe.brand),
      Joined(Field("Model", shoe.model),
        Joined(Field("Size", FormatSize(shoe.size)), Field("Color", shoe.color))));
    if GoodValue(shoe.brand) && GoodValue(shoe.model) && GoodValue(shoe.color) then
      LabelsGood();
      SizeTextGood(shoe.size);
      JoinedFieldsRead("Brand", shoe.brand, "Model", shoe.model, "Size", FormatSize(shoe.size), "Color", shoe.color);
      text
    else
      text
  }

  /** A written size is a non-empty, trimmed text without '|'. */
  lemma SizeTextGood(size: Size)
    ensures GoodValue(FormatSize(size))
  {
    MagnitudeShape(Abs(size.mantissa), size.scale);
  }

  /** `part.strip().split(":", 1)[1].strip()`: the stripped text after the
    * first ':' of a stripped part, or None (the IndexError) when there is no
    * ':'. */
  function FieldValue(part: string): (r: Option<string>)
    ensures r.None? <==> ':' !in Trim(part)
  {
    match AfterFirst(Trim(part), ':')
    case None => None
    case Some(v) => Some(Trim(v))
  }

  /** `_shoe_from_list_text`: split on '|', read the value of the first four
    * parts and parse the third as the size. None is the `ValueError` it
    * raises for any failure: fewer than four parts, one of the first four
    * without ':', or a size that is not a number. */
  function ShoeFromListText(text: string): (r: Option<Shoe>)
    ensures var parts := Split(text, '|');
      r.Some? <==>
        && |parts| >= 4
        && FieldValue(parts[0]).Some? && FieldValue(parts[1]).Some?
        && FieldValue(parts[2]).Some? && FieldValue(parts[3]).Some?
        && ParseSize(FieldValue(parts[2]).value).Some?
  {
    var parts := Split(text, '|');
    if |parts| < 4 then None
    else
      match (FieldValue(parts[0]), FieldValue(parts[1]), FieldValue(parts[2]), FieldValue(parts[3]))
      case (Some(brand), Some(model), Some(sizeText), Some(color)) =>
        (match ParseSize(sizeText)
         case Some(size) => Some(Shoe(brand, model, size, color))
         case None => None)
      case _ => None
  }

  /** A name that stays recognisable inside the list text. */
  predicate GoodLabel(name: string) {
    name != [] && IsTrimmed(name) && ':' !in name && '|' !in name
  }

  lemma LabelsGood()
    ensures GoodLabel("Brand") && GoodLabel("Model") && GoodLabel("Size") && GoodLabel("Color")
  {
  }

  /** A field written with spaces on either side reads back as its value. */
  lemma FieldValueOfPadded(pre: string, name: string, value: string, post: string)
    requires AllSpace(pre) && AllSpace(post) && GoodLabel(name)
    requires value != [] && IsTrimmed(value)
    ensures FieldValue(pre + Field(name, value) + post) == Some(value)
  {
    var f := Field(name, value);
    FieldTrimmed(name, value);
    TrimOfPadded(pre, f, post);
    FieldAfterColon(name, value);
    TrimAfterSpace(value);
    FieldValueSteps(pre + f + post, f, " " + value);
  }

  /** A field with a label and a value is trimmed when both ends are. */
  lemma FieldTrimmed(name: string, value: string)
    requires GoodLabel(name) && value != [] && IsTrimmed(value)
    ensures IsTrimmed(Field(name, value))
  {
    var f := Field(name, value);
    assert f[0] == name[0];
    assert f[|f| - 1] == value[|value| - 1];
  }

  /** The first ':' of a field is the one after its label. */
  lemma FieldAfterColon(name: string, value: string)
    requires ':' !in name
    ensures AfterFirst(Field(name, value), ':') == Some(" " + value)
  {
    assert Field(name, value) == name + [':'] + (" " + value);
    AfterFirstJoined(name, ':', " " + value);
  }

  /** Stripping the space written after the ':' gives the value back. */
  lemma TrimAfterSpace(value: string)
    requires IsTrimmed(value)
    ensures Trim(" " + value) == value
  {
    assert AllSpace(" ");
    TrimOfPadded(" ", value, []);
    assert " " + value + [] == " " + value;
  }

  /** `FieldValue` strips, cuts after the first ':', and strips again. */
  lemma FieldValueSteps(part: string, stripped: string, after: string)
    requires Trim(part) == stripped && AfterFirst(stripped, ':') == Some(after)
    ensures FieldValue(part) == Some(Trim(after))
  {
  }

  /** Splitting at the separator after a '|'-free piece gives that piece,
    * then the parts of the rest; the spaces around the separator stay on
    * the neighbouring parts. */
  lemma SplitJoinedPiece(a: string, b: string)
    requires '|' !in a
    ensures Split(Joined(a, b), '|') == [a + " "] + Split(" " + b, '|')
  {
    assert Joined(a, b) == (a + " ") + ['|'] + (" " + b);
    SplitJoined(a + " ", '|', " " + b);
  }

  lemma PadJoined(a: string, b: string)
    ensures " " + Joined(a, b) == Joined(" " + a, b)
  {
  }

  /** Splitting four '|'-free pieces joined by " | " gives the pieces back,
    * with the spaces around each separator still attached. */
  lemma SplitFour(f0: string, f1: string, f2: string, f3: string)
    requires '|' !in f0 && '|' !in f1 && '|' !in f2 && '|' !in f3
    ensures Split(Joined(f0, Joined(f1, Joined(f2, f3))), '|')
         == [f0 + " ", " " + f1 + " ", " " + f2 + " ", " " + f3]
  {
    SplitNoSeparator(" " + f3, '|');
    SplitPaddedPiece(f2, f3);
    SplitPaddedPiece(f1, Joined(f2, f3));
    SplitJoinedPiece(f0, Joined(f1, Joined(f2, f3)));
  }

  /** A piece after a separator keeps the space written before it. */
  lemma SplitPaddedPiece(a: string, b: string)
    requires '|' !in a
    ensures Split(" " + Joined(a, b), '|') == [" " + a + " "] + Split(" " + b, '|')
  {
    PadJoined(a, b);
    SplitJoinedPiece(" " + a, b);
  }

  /** A value that can be written after a label and read back. */
  predicate GoodValue(value: string) {
    value != [] && IsTrimmed(value) && '|' !in value
  }

  /** Four labelled fields joined by " | " split back into four parts that
    * read back as the four values. */
  lemma JoinedFieldsRead(n0: string, v0: string, n1: string, v1: string, n2: string, v2: string, n3: string, v3: string)
    requires GoodLabel(n0) && GoodLabel(n1) && GoodLabel(n2) && GoodLabel(n3)
    requires GoodValue(v0) && GoodValue(v1) && GoodValue(v2) && GoodValue(v3)
    ensures var parts := Split(Joined(Field(n0, v0), Joined(Field(n1, v1), Joined(Field(n2, v2), Field(n3, v3)))), '|');
      && |parts| == 4
      && FieldValue(parts[0]) == Some(v0) && FieldValue(parts[1]) == Some(v1)
      && FieldValue(parts[2]) == Some(v2) && FieldValue(parts[3]) == Some(v3)
  {
    FieldsSplit(n0, v0, n1, v1, n2, v2, n3, v3);
    PaddedFieldsRead(n0, v0, n1, v1, n2, v2, n3, v3);
  }

  /** The list text splits at its three separators. */
  lemma FieldsSplit(n0: string, v0: string, n1: string, v1: string, n2: string, v2: string, n3: string, v3: string)
    requires GoodLabel(n0) && GoodLabel(n1) && GoodLabel(n2) && GoodLabel(n3)
    requires GoodValue(v0) && GoodValue(v1) && GoodValue(v2) && GoodValue(v3)
    ensures Split(Joined(Field(n0, v0), Joined(Field(n1, v1), Joined(Field(n2, v2), Field(n3, v3)))), '|')
         == [Field(n0, v0) + " ", " " + Field(n1, v1) + " ", " " + Field(n2, v2) + " ", " " + Field(n3, v3)]
  {
    FieldHasNoBar(n0, v0);
    FieldHasNoBar(n1, v1);
    FieldHasNoBar(n2, v2);
    FieldHasNoBar(n3, v3);
    SplitFour(Field(n0, v0), Field(n1, v1), Field(n2, v2), Field(n3, v3));
  }

  /** Each part, with the spaces around the separators still on it, reads
    * back as its value. */
  lemma PaddedFieldsRead(n0: string, v0: string, n1: string, v1: string, n2: string, v2: string, n3: string, v3: string)
    requires GoodLabel(n0) && GoodLabel(n1) && GoodLabel(n2) && GoodLabel(n3)
    requires GoodValue(v0) && GoodValue(v1) && GoodValue(v2) && GoodValue(v3)
    ensures FieldValue(Field(n0, v0) + " ") == Some(v0)
    ensures FieldValue(" " + Field(n1, v1) + " ") == Some(v1)
    ensures FieldValue(" " + Field(n2, v2) + " ") == Some(v2)
    ensures FieldValue(" " + Field(n3, v3)) == Some(v3)
  {
    assert AllSpace(" ") && AllSpace([]);
    FieldValueOfPadded([], n0, v0, " ");
    assert [] + Field(n0, v0) + " " == Field(n0, v0) + " ";
    FieldValueOfPadded(" ", n1, v1, " ");
    FieldValueOfPadded(" ", n2, v2, " ");
    FieldValueOfPadded(" ", n3, v3, []);
    assert " " + Field(n3, v3) + [] == " " + Field(n3, v3);
  }

  /** The list text of a storable shoe with no '|' in its text fields
    * parses back as that shoe, so "Remove Selected" removes the shoe that
    * was selected. */
  lemma ListTextRoundTrip(shoe: Shoe)
    requires Storable(shoe)
    requires '|' !in shoe.brand && '|' !in shoe.model && '|' !in shoe.color
    ensures ShoeFromListText(ListText(shoe)) == Some(shoe)
  {
    SizeTextGood(shoe.size);
    LabelsGood();
    JoinedFieldsRead("Brand", shoe.brand, "Model", shoe.model, "Size", FormatSize(shoe.size), "Color", shoe.color);
    FormatParseRoundTrip(shoe.size);
  }

  lemma FieldHasNoBar(name: string, value: string)
    requires '|' !in name && '|' !in value
    ensures '|' !in Field(name, value)
  {
    var f := Field(name, value);
    forall i | 0 <= i < |f|
      ensures f[i] != '|'
    {
      if i < |name| {
        assert f[i] == name[i];
      } else if i >= |name| + 2 {
        assert f[i] == value[i - |name| - 2];
      }
    }
  }
}
