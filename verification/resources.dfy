/** The three kinds of localised resource: a plain string, an array of
    strings indexed by int, and a set of plural forms. Each is keyed by a
    string and holds one entry per declared language; adding or reading an
    undeclared language fails. Python mutates the objects in place; here
    every update returns the new value, and a failure returns none. */
module Resources {
  import opened Errors
  import opened Strings
  import opened Collections

  /** A language code such as "en". */
  type Lang = string

  /** `ResourceText`: a translation plus the options attached to its row. */
  datatype Text = Text(value: string, options: seq<string>)

  /** The empty translation every declared language starts with. */
  const Blank := Text("", [])

  /** What the resources store for an added text: its NFC form, options kept. */
  function Normalize(t: Text): Text
  {
    Text(Nfc(t.value), t.options)
  }

  // ---------------------------------------------------------------------
  // Resource: the key can be assigned only once

  /** The `key` setter: succeeds only while no key is set. */
  function AssignKey(current: Option<string>, value: string): (r: Result<string>)
    ensures r.Success? <==> current.None?
    ensures r.Success? ==> r.value == value
    ensures current.Some? ==> r.error == KeyAlreadySet(current.value)
  {
    match current
    case None => Success(value)
    case Some(k) => Failure(KeyAlreadySet(k))
  }

  /** Each constructor's assignment sets the given key, and every later
      assignment fails, naming the key already there. */
  lemma KeyAssignedOnce(key: string, languages: seq<Lang>, other: string)
    ensures NewStringResource(key, languages).key == key
    ensures NewStringArray(key, languages).key == key
    ensures NewQuantityStrings(key, languages).key == key
    ensures AssignKey(Some(NewStringResource(key, languages).key), other) == Failure(KeyAlreadySet(key))
    ensures AssignKey(Some(NewStringArray(key, languages).key), other) == Failure(KeyAlreadySet(key))
    ensures AssignKey(Some(NewQuantityStrings(key, languages).key), other) == Failure(KeyAlreadySet(key))
  {
  }

  // ---------------------------------------------------------------------
  // String

  /** `String`: one text per language. */
  datatype StringResource = StringResource(key: string, strings: map<Lang, Text>) {

    function Languages(): set<Lang>
    {
      strings.Keys
    }

    /** `add`: store the normalised text for a declared language. */
    function Add(language: Lang, text: Text): (r: Result<StringResource>)
      ensures r.Success? <==> language in Languages()
      ensures r.Failure? ==> r.error == UnknownLanguage(language)
      ensures r.Success? ==> r.value.key == key && r.value.Languages() == Languages()
      ensures r.Success? ==> r.value.strings[language] == Normalize(text)
      ensures r.Success? ==> forall l :: l in strings && l != language ==> r.value.strings[l] == strings[l]
    {
      if language in strings then Success(StringResource(key, strings[language := Normalize(text)]))
      else Failure(UnknownLanguage(language))
    }

    /** `get`: the text of a declared language. */
    function Get(language: Lang): (r: Result<Text>)
      ensures r.Success? <==> language in Languages()
      ensures r.Failure? ==> r.error == UnknownLanguage(language)
      ensures r.Success? ==> r.value == strings[language]
    {
      if language in strings then Success(strings[language])
      else Failure(UnknownLanguage(language))
    }

    /** `merge`: the keys must agree and the language sets be disjoint; the
        result then holds every language of both with its own text. */
    function Merge(other: StringResource): (r: Result<StringResource>)
      ensures r.Success? <==> key == other.key && Languages() !! other.Languages()
      ensures key != other.key ==> r == Failure(KeyMismatch(key, other.key))
      ensures key == other.key && !(Languages() !! other.Languages()) ==>
                r == Failure(LanguageConflict(Languages() * other.Languages()))
      ensures r.Success? ==> r.value.key == key && r.value.Languages() == Languages() + other.Languages()
      ensures r.Success? ==> forall l :: l in strings ==> r.value.strings[l] == strings[l]
      ensures r.Success? ==> forall l :: l in other.strings ==> r.value.strings[l] == other.strings[l]
    {
      if key != other.key then Failure(KeyMismatch(key, other.key))
      else
        if !(Languages() !! other.Languages()) then Failure(LanguageConflict(Languages() * other.Languages()))
        else Success(StringResource(key, strings + other.strings))
    }
  }

  /** The constructor: the given key, every listed language mapped to the
      empty text. */
  function NewStringResource(key: string, languages: seq<Lang>): (r: StringResource)
    ensures r.key == key
    ensures r.Languages() == Elements(languages)
    ensures forall l :: l in r.strings ==> r.strings[l] == Blank
  {
    StringResource(AssignKey(None, key).value, map l | l in languages :: Blank)
  }

  /** After an `add` that succeeds, `get` returns the normalised text for
      that language and what it returned before for every other language. */
  lemma AddThenGet(s: StringResource, language: Lang, text: Text, other: Lang)
    requires s.Add(language, text).Success?
    ensures s.Add(language, text).value.Get(language) == Success(Normalize(text))
    ensures other != language ==> s.Add(language, text).value.Get(other) == s.Get(other)
  {
  }

  /** Merging is symmetric: when one order succeeds so does the other, with
      the same texts. */
  lemma MergeCommutes(a: StringResource, b: StringResource)
    requires a.Merge(b).Success?
    ensures b.Merge(a).Success?
    ensures a.Merge(b).value.strings == b.Merge(a).value.strings
  {
  }

  // ---------------------------------------------------------------------
  // StringArray

  /** `StringArray`: per language, a dict from int index to text. */
  datatype StringArray = StringArray(key: string, arrays: map<Lang, map<int, Text>>) {

    function Languages(): set<Lang>
    {
      arrays.Keys
    }

    /** `add`: store the normalised text at `index`, overwriting any text
        already there. */
    function Add(language: Lang, index: int, text: Text): (r: Result<StringArray>)
      ensures r.Success? <==> language in Languages()
      ensures r.Failure? ==> r.error == UnknownLanguage(language)
      ensures r.Success? ==> r.value.key == key && r.value.Languages() == Languages()
      ensures r.Success? ==> r.value.arrays[language].Keys == arrays[language].Keys + {index}
      ensures r.Success? ==> r.value.arrays[language][index] == Normalize(text)
      ensures r.Success? ==> forall i :: i in arrays[language] && i != index ==>
                r.value.arrays[language][i] == arrays[language][i]
      ensures r.Success? ==> forall l :: l in arrays && l != language ==> r.value.arrays[l] == arrays[l]
    {
      if language in arrays then Success(StringArray(key, arrays[language := arrays[language][index := Normalize(text)]]))
      else Failure(UnknownLanguage(language))
    }

    /** `get`: the text at `index`; an index never added is a missing key. */
    function Get(language: Lang, index: int): (r: Result<Text>)
      ensures r.Success? <==> language in Languages() && index in arrays[language]
      ensures language !in Languages() ==> r.error == UnknownLanguage(language)
      ensures language in Languages() && index !in arrays[language] ==> r.error == MissingEntry
      ensures r.Success? ==> r.value == arrays[language][index]
    {
      if language !in arrays then Failure(UnknownLanguage(language))
      else if index !in arrays[language] then Failure(MissingEntry)
      else Success(arrays[language][index])
    }

    /** `array`: the raw index-to-text dict of a language; a plain lookup. */
    function Items(language: Lang): (r: Result<map<int, Text>>)
      ensures r.Success? <==> language in Languages()
      ensures r.Failure? ==> r.error == MissingEntry
      ensures r.Success? ==> r.value == arrays[language]
    {
      if language in arrays then Success(arrays[language]) else Failure(MissingEntry)
    }

    /** `get_array`: the texts of a language ordered by ascending index. */
    function GetArray(language: Lang): (r: Result<seq<Text>>)
      ensures r.Success? <==> language in Languages()
      ensures r.Failure? ==> r.error == UnknownLanguage(language)
      ensures r.Success? ==> |r.value| == |arrays[language]|
      ensures r.Success? ==>
                var order := SortedIndices(arrays[language].Keys);
                |order| == |r.value| &&
                forall k :: 0 <= k < |r.value| ==> r.value[k] == arrays[language][order[k]]
    {
      if language !in arrays then Failure(UnknownLanguage(language))
      else
        var items := arrays[language];
        var order := SortedIndices(items.Keys);
        SortedIndicesLength(items.Keys);
        Success(seq(|order|, k requires 0 <= k < |order| => items[order[k]]))
    }

    /** `size`: how many distinct indices a language holds. */
    function Size(language: Lang): (r: Result<nat>)
      ensures r.Success? <==> language in Languages()
      ensures r.Failure? ==> r.error == UnknownLanguage(language)
    {
      if language in arrays then Success(|arrays[language]|)
      else Failure(UnknownLanguage(language))
    }

    /** `merge`: as for strings, a disjoint union of languages, each
        keeping its own array. */
    function Merge(other: StringArray): (r: Result<StringArray>)
      ensures r.Success? <==> key == other.key && Languages() !! other.Languages()
      ensures key != other.key ==> r == Failure(KeyMismatch(key, other.key))
      ensures key == other.key && !(Languages() !! other.Languages()) ==>
                r == Failure(LanguageConflict(Languages() * other.Languages()))
      ensures r.Success? ==> r.value.key == key && r.value.Languages() == Languages() + other.Languages()
      ensures r.Success? ==> forall l :: l in arrays ==> r.value.arrays[l] == arrays[l]
      ensures r.Success? ==> forall l :: l in other.arrays ==> r.value.arrays[l] == other.arrays[l]
    {
      if key != other.key then Failure(KeyMismatch(key, other.key))
      else
        if !(Languages() !! other.Languages()) then Failure(LanguageConflict(Languages() * other.Languages()))
        else Success(StringArray(key, arrays + other.arrays))
    }
  }

  /** The constructor: every listed language starts with an empty array. */
  function NewStringArray(key: string, languages: seq<Lang>): (r: StringArray)
    ensures r.key == key
    ensures r.Languages() == Elements(languages)
    ensures forall l :: l in r.arrays ==> r.arrays[l] == map[]
  {
    StringArray(AssignKey(None, key).value, map l | l in languages :: map[])
  }

  /** `get` after `add` returns the added text, `array` shows it at its
      index with the rest unchanged, and `size` grows by one exactly when
      the index was new. */
  lemma ArrayAddThenGet(a: StringArray, language: Lang, index: int, text: Text)
    requires a.Add(language, index, text).Success?
    ensures a.Add(language, index, text).value.Get(language, index) == Success(Normalize(text))
    ensures a.Add(language, index, text).value.Size(language).value ==
              a.Size(language).value + (if index in a.arrays[language] then 0 else 1)
    ensures a.Add(language, index, text).value.Items(language) ==
              Success(a.Items(language).value[index := Normalize(text)])
  {
    var before := a.arrays[language].Keys;
    var after := a.Add(language, index, text).value.arrays[language].Keys;
    if index !in before {
      assert after == before + {index};
    } else {
      assert after == before;
    }
  }

  /** The order of adds to different slots does not matter, so the
      array read back is independent of insertion order. */
  lemma ArrayAddCommutes(a: StringArray, l1: Lang, i1: int, t1: Text, l2: Lang, i2: int, t2: Text)
    requires l1 in a.Languages() && l2 in a.Languages()
    requires l1 != l2 || i1 != i2
    ensures a.Add(l1, i1, t1).value.Add(l2, i2, t2) == a.Add(l2, i2, t2).value.Add(l1, i1, t1)
  {
    var m := a.arrays;
    var n1 := Normalize(t1);
    var n2 := Normalize(t2);
    if l1 == l2 {
      var w: map<int, Text> := m[l1][i1 := n1][i2 := n2];
      assert w == m[l1][i2 := n2][i1 := n1];
      assert m[l1 := m[l1][i1 := n1]][l1 := w] == m[l1 := w];
      assert m[l1 := m[l1][i2 := n2]][l1 := w] == m[l1 := w];
    } else {
      var u1: map<int, Text> := m[l1][i1 := n1];
      var u2: map<int, Text> := m[l2][i2 := n2];
      assert m[l1 := u1][l2 := u2] == m[l2 := u2][l1 := u1];
    }
  }

  /** The array read back lists every stored text once per index, in
      strictly ascending index order, and its length is `size`. */
  lemma GetArrayOrdered(a: StringArray, language: Lang)
    requires language in a.Languages()
    ensures |a.GetArray(language).value| == a.Size(language).value
    ensures exists order: seq<int> ::
              (forall i :: i in order <==> i in a.arrays[language]) &&
              (forall i, j :: 0 <= i < j < |order| ==> order[i] < order[j]) &&
              |order| == |a.GetArray(language).value| &&
              (forall k :: 0 <= k < |order| ==> a.GetArray(language).value[k] == a.arrays[language][order[k]])
  {
    var order := SortedIndices(a.arrays[language].Keys);
    assert |order| == |a.GetArray(language).value|;
  }

  // ---------------------------------------------------------------------
  // QuantityStrings

  /** The six plural categories. */
  datatype Quantity = Zero | One | Two | Few | Many | Other

  /** `QUANTITIES`, in its fixed order. */
  const Quantities: seq<Quantity> := [Zero, One, Two, Few, Many, Other]

  function QuantityName(q: Quantity): string
  {
    match q
    case Zero => "zero"
    case One => "one"
    case Two => "two"
    case Few => "few"
    case Many => "many"
    case Other => "other"
  }

  /** Quantity validation: the category a name stands for, if any. */
  function ParseQuantity(name: string): (r: Option<Quantity>)
    ensures r.Some? ==> QuantityName(r.value) == name
    ensures r.None? ==> forall q :: QuantityName(q) != name
  {
    if name == "zero" then Some(Zero)
    else if name == "one" then Some(One)
    else if name == "two" then Some(Two)
    else if name == "few" then Some(Few)
    else if name == "many" then Some(Many)
    else if name == "other" then Some(Other)
    else None
  }

  /** Every category's name is accepted and stands for that category, and
      `QUANTITIES` lists each category exactly once. */
  lemma QuantityNames(q: Quantity)
    ensures ParseQuantity(QuantityName(q)) == Some(q)
    ensures q in Quantities
    ensures NoDuplicates(Quantities)
  {
  }

  /** `QuantityStrings`: per language, one text per category. */
  datatype QuantityStrings = QuantityStrings(key: string, plurals: map<Lang, map<Quantity, Text>>) {

    function Languages(): set<Lang>
    {
      plurals.Keys
    }

    /** Every declared language has a text for all six categories. */
    predicate Complete()
    {
      forall l :: l in plurals ==> forall q: Quantity :: q in plurals[l]
    }

    /** `add_quantity_string`: the quantity is validated before the
        language is looked at. */
    function AddQuantityText(language: Lang, quantity: string, text: Text): (r: Result<QuantityStrings>)
      ensures r.Success? <==> ParseQuantity(quantity).Some? && language in Languages()
      ensures ParseQuantity(quantity).None? ==> r == Failure(InvalidQuantity(quantity))
      ensures ParseQuantity(quantity).Some? && language !in Languages() ==> r == Failure(UnknownLanguage(language))
      ensures r.Success? ==> r.value.key == key && r.value.Languages() == Languages()
      ensures r.Success? ==> r.value.plurals[language].Keys == plurals[language].Keys + {ParseQuantity(quantity).value}
      ensures r.Success? ==> r.value.plurals[language][ParseQuantity(quantity).value] == Normalize(text)
      ensures r.Success? ==> forall q :: q in plurals[language] && QuantityName(q) != quantity ==>
                r.value.plurals[language][q] == plurals[language][q]
      ensures r.Success? ==> forall l :: l in plurals && l != language ==> r.value.plurals[l] == plurals[l]
    {
      match ParseQuantity(quantity)
      case None => Failure(InvalidQuantity(quantity))
      case Some(q) =>
        if language in plurals then Success(QuantityStrings(key, plurals[language := plurals[language][q := Normalize(text)]]))
        else Failure(UnknownLanguage(language))
    }

    /** `get_quantity_string`: an unknown language fails as such, a name
        that is not a category as a missing key. */
    function GetQuantityText(language: Lang, quantity: string): (r: Result<Text>)
      ensures r.Success? <==> language in Languages() && ParseQuantity(quantity).Some? &&
                              ParseQuantity(quantity).value in plurals[language]
      ensures language !in Languages() ==> r == Failure(UnknownLanguage(language))
      ensures language in Languages() && ParseQuantity(quantity).None? ==> r == Failure(MissingEntry)
      ensures r.Success? ==> r.value == plurals[language][ParseQuantity(quantity).value]
    {
      if language !in plurals then Failure(UnknownLanguage(language))
      else match ParseQuantity(quantity)
        case None => Failure(MissingEntry)
        case Some(q) => if q in plurals[language] then Success(plurals[language][q]) else Failure(MissingEntry)
    }

    /** `get_quantities`: a plain lookup, failing as a missing key. */
    function GetQuantities(language: Lang): (r: Result<map<Quantity, Text>>)
      ensures r.Success? <==> language in Languages()
      ensures r.Failure? ==> r.error == MissingEntry
      ensures r.Success? ==> r.value == plurals[language]
    {
      if language in plurals then Success(plurals[language]) else Failure(MissingEntry)
    }

    /** `merge` as the code stands: after the key and language checks, the
        copy loop reads attributes the class does not have, so a merge
        fails whenever the other resource has any language at all. */
    function MergeAsWritten(other: QuantityStrings): (r: Result<QuantityStrings>)
      ensures r.Success? <==> key == other.key && other.Languages() == {}
      ensures key != other.key ==> r == Failure(KeyMismatch(key, other.key))
      ensures key == other.key && !(Languages() !! other.Languages()) ==>
                r == Failure(LanguageConflict(Languages() * other.Languages()))
      ensures key == other.key && Languages() !! other.Languages() && other.Languages() != {} ==>
                r == Failure(BrokenMerge)
      ensures r.Success? ==> r.value == this
    {
      if key != other.key then Failure(KeyMismatch(key, other.key))
      else
        if !(Languages() !! other.Languages()) then Failure(LanguageConflict(Languages() * other.Languages()))
        else if other.Languages() != {} then Failure(BrokenMerge)
        else Success(this)
    }

    /** `merge` as evidently intended, matching the other two kinds: a
        disjoint union of languages, each keeping its own texts. */
    function Merge(other: QuantityStrings): (r: Result<QuantityStrings>)
      ensures r.Success? <==> key == other.key && Languages() !! other.Languages()
      ensures key != other.key ==> r == Failure(KeyMismatch(key, other.key))
      ensures key == other.key && !(Languages() !! other.Languages()) ==>
                r == Failure(LanguageConflict(Languages() * other.Languages()))
      ensures r.Success? ==> r.value.key == key && r.value.Languages() == Languages() + other.Languages()
      ensures r.Success? ==> forall l :: l in plurals ==> r.value.plurals[l] == plurals[l]
      ensures r.Success? ==> forall l :: l in other.plurals ==> r.value.plurals[l] == other.plurals[l]
    {
      if key != other.key then Failure(KeyMismatch(key, other.key))
      else
        if !(Languages() !! other.Languages()) then Failure(LanguageConflict(Languages() * other.Languages()))
        else Success(QuantityStrings(key, plurals + other.plurals))
    }
  }

  /** The constructor: every listed language gets all six categories, each
      with the empty text. */
  function NewQuantityStrings(key: string, languages: seq<Lang>): (r: QuantityStrings)
    ensures r.key == key
    ensures r.Languages() == Elements(languages)
    ensures r.Complete()
    ensures forall l, q :: l in r.plurals ==> r.plurals[l][q] == Blank
  {
    assert forall q: Quantity :: q in Quantities by {
      forall q: Quantity ensures q in Quantities {
        QuantityNames(q);
      }
    }
    QuantityStrings(AssignKey(None, key).value, map l | l in languages :: map q: Quantity | q in Quantities :: Blank)
  }

  /** Adding keeps every category of every language present, and the
      added text is what `get_quantity_string` then returns. */
  lemma AddQuantityThenGet(p: QuantityStrings, language: Lang, quantity: string, text: Text)
    requires p.Complete()
    requires p.AddQuantityText(language, quantity, text).Success?
    ensures p.AddQuantityText(language, quantity, text).value.Complete()
    ensures p.AddQuantityText(language, quantity, text).value.GetQuantityText(language, quantity) == Success(Normalize(text))
    ensures p.AddQuantityText(language, quantity, text).value.GetQuantities(language) ==
              Success(p.GetQuantities(language).value[ParseQuantity(quantity).value := Normalize(text)])
  {
  }

  /** In a complete resource, reading fails only for an undeclared language
      or a name that is not a category. */
  lemma CompleteGet(p: QuantityStrings, language: Lang, q: Quantity)
    requires p.Complete()
    requires language in p.Languages()
    ensures p.GetQuantityText(language, QuantityName(q)).Success?
  {
    QuantityNames(q);
  }

  /** The corrected merge keeps resources complete. */
  lemma MergeComplete(a: QuantityStrings, b: QuantityStrings)
    requires a.Complete() && b.Complete()
    requires a.Merge(b).Success?
    ensures a.Merge(b).value.Complete()
  {
  }

  /** The discrepancy: two resources with the same key and disjoint,
      non-empty language sets, which the other kinds merge, make the plural
      merge fail. */
  lemma MergeAsWrittenBreaks()
    ensures NewQuantityStrings("k", ["en"]).MergeAsWritten(NewQuantityStrings("k", ["fr"])) == Failure(BrokenMerge)
    ensures NewQuantityStrings("k", ["en"]).Merge(NewQuantityStrings("k", ["fr"])).Success?
  {
    var a := NewQuantityStrings("k", ["en"]);
    var b := NewQuantityStrings("k", ["fr"]);
    assert "en" in a.Languages() && "fr" in b.Languages();
    assert a.Languages() == {"en"} && b.Languages() == {"fr"};
    assert "en" != "fr";
  }

  // ---------------------------------------------------------------------
  // Resource: any of the three kinds, ordered by key

  datatype Resource =
    | StringRes(s: StringResource)
    | ArrayRes(a: StringArray)
    | PluralsRes(p: QuantityStrings)
  {
    function Key(): string
    {
      match this
      case StringRes(s) => s.key
      case ArrayRes(a) => a.key
      case PluralsRes(p) => p.key
    }
  }

  /** `__lt__`: resources compare by their keys as strings. */
  predicate Before(a: Resource, b: Resource)
  {
    Less(a.Key(), b.Key())
  }

  /** `Before` is a strict order, total on resources with distinct keys. */
  lemma BeforeIsStrictOrder(a: Resource, b: Resource, c: Resource)
    ensures !Before(a, a)
    ensures Before(a, b) ==> !Before(b, a)
    ensures Before(a, b) && Before(b, c) ==> Before(a, c)
    ensures a.Key() != b.Key() ==> Before(a, b) || Before(b, a)
  {
    LessIrreflexive(a.Key());
    LessTotal(a.Key(), b.Key());
    if Before(a, b) {
      LessAsymmetric(a.Key(), b.Key());
      if Before(b, c) {
        LessTransitive(a.Key(), b.Key(), c.Key());
      }
    }
  }

  function ResourceKey(r: Resource): string
  {
    r.Key()
  }

  /** `sorted(resources)`: a permutation in which no resource is `Before`
      an earlier one. */
  function SortResources(rs: seq<Resource>): (r: seq<Resource>)
    ensures multiset(r) == multiset(rs)
    ensures forall i, j :: 0 <= i < j < |r| ==> !Before(r[j], r[i])
  {
    SortBy(rs, ResourceKey)
  }
}
