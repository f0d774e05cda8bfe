/** The Android generator as element construction: each resource becomes
    one child of the `resources` root, holding escaped texts for a single
    language. The document itself (DOM nodes, pretty-printed XML, the file
    it is written to) is not modelled; the children are. */
module Generator {
  import opened Errors
  import opened Collections
  import opened Resources
  import opened Escaping

  /** An `item` of a `plurals` element, tagged with its category. */
  datatype PluralItem = PluralItem(quantity: Quantity, text: string)

  /** A child of the `resources` root. */
  datatype Element =
    | StringElement(name: string, text: string)
    | ArrayElement(name: string, texts: seq<string>)
    | PluralsElement(name: string, items: seq<PluralItem>)
  {
    function Name(): string
    {
      match this
      case StringElement(n, _) => n
      case ArrayElement(n, _) => n
      case PluralsElement(n, _) => n
    }
  }

  const Android: string := "android"
  const Ios: string := "ios"

  /** `AndroidGenerator`: the children appended to the root so far. */
  datatype AndroidGenerator = AndroidGenerator(elements: seq<Element>)

  /** `GeneratorFactory.create`: only the Android generator exists. */
  function Create(generatorType: string): (r: Result<AndroidGenerator>)
    ensures r.Success? <==> generatorType == Android
    ensures r.Success? ==> r.value.elements == []
    ensures generatorType == Ios ==> r == Failure(NotImplemented(generatorType))
    ensures generatorType != Android && generatorType != Ios ==> r == Failure(UnknownGenerator(generatorType))
  {
    if generatorType == Android then Success(AndroidGenerator([]))
    else if generatorType == Ios then Failure(NotImplemented(generatorType))
    else Failure(UnknownGenerator(generatorType))
  }

  // ---------------------------------------------------------------------
  // One element per resource

  /** The escaped texts of a list, in the same order. */
  function EscapeAll(texts: seq<Text>): (r: seq<string>)
    ensures |r| == |texts|
    ensures forall k :: 0 <= k < |r| ==> r[k] == Escape(texts[k].value)
  {
    seq(|texts|, k requires 0 <= k < |texts| => Escape(texts[k].value))
  }

  /** The texts of the categories `qs`, read in that order with
      `get_quantity_string`; the first failing read aborts. */
  function QuantityTexts(p: QuantityStrings, language: Lang, qs: seq<Quantity>): (r: Result<seq<Text>>)
    ensures r.Success? <==> |qs| == 0 || (language in p.plurals && forall q :: q in qs ==> q in p.plurals[language])
    ensures |qs| > 0 && language !in p.plurals ==> r == Failure(UnknownLanguage(language))
    ensures r.Success? ==> |r.value| == |qs|
    ensures r.Success? ==> forall k :: 0 <= k < |qs| ==> r.value[k] == p.plurals[language][qs[k]]
    decreases |qs|
  {
    if |qs| == 0 then Success([])
    else
      QuantityNames(qs[0]);
      var t :- p.GetQuantityText(language, QuantityName(qs[0]));
      var rest :- QuantityTexts(p, language, qs[1..]);
      assert forall q :: q in qs ==> q == qs[0] || q in qs[1..];
      Success([t] + rest)
  }

  /** The items kept from categories `qs` with (escaped) texts `texts`:
      one per non-empty text, in the order of `qs`. */
  function Select(qs: seq<Quantity>, texts: seq<string>): (items: seq<PluralItem>)
    requires |qs| == |texts|
    ensures |items| <= |qs|
    decreases |qs|
  {
    if |qs| == 0 then []
    else (if |texts[0]| > 0 then [PluralItem(qs[0], texts[0])] else []) + Select(qs[1..], texts[1..])
  }

  /** Which category the `i`-th kept item comes from. */
  function Source(qs: seq<Quantity>, texts: seq<string>, i: nat): (k: nat)
    requires |qs| == |texts|
    requires i < |Select(qs, texts)|
    ensures k < |qs| && |texts[k]| > 0
    ensures Select(qs, texts)[i] == PluralItem(qs[k], texts[k])
    decreases |qs|
  {
    var rest := Select(qs[1..], texts[1..]);
    if |texts[0]| > 0 then
      if i == 0 then 0
      else
        var k := Source(qs[1..], texts[1..], i - 1);
        assert Select(qs, texts)[i] == rest[i - 1];
        1 + k
    else
      var k := Source(qs[1..], texts[1..], i);
      assert Select(qs, texts)[i] == rest[i];
      1 + k
  }

  /** Later items come from later categories. */
  lemma {:induction false} SourceMonotone(qs: seq<Quantity>, texts: seq<string>, i: nat, j: nat)
    requires |qs| == |texts|
    requires i < j < |Select(qs, texts)|
    ensures Source(qs, texts, i) < Source(qs, texts, j)
    decreases |qs|
  {
    if |texts[0]| > 0 {
      if i > 0 {
        SourceMonotone(qs[1..], texts[1..], i - 1, j - 1);
      } else {
        assert Source(qs, texts, 0) == 0;
      }
    } else {
      SourceMonotone(qs[1..], texts[1..], i, j);
    }
  }

  /** Every non-empty text is kept, tagged with its category. */
  lemma {:induction false} SelectCover(qs: seq<Quantity>, texts: seq<string>, k: nat)
    requires |qs| == |texts|
    requires k < |qs| && |texts[k]| > 0
    ensures exists i :: 0 <= i < |Select(qs, texts)| && Select(qs, texts)[i] == PluralItem(qs[k], texts[k])
    decreases |qs|
  {
    var items := Select(qs, texts);
    var rest := Select(qs[1..], texts[1..]);
    var offset := |items| - |rest|;
    if k == 0 {
      assert items[0] == PluralItem(qs[0], texts[0]);
    } else {
      SelectCover(qs[1..], texts[1..], k - 1);
      var i :| 0 <= i < |rest| && rest[i] == PluralItem(qs[1..][k - 1], texts[1..][k - 1]);
      assert items[offset + i] == rest[i];
    }
  }

  /** In a list without repeats, the first occurrence of its `k`-th member
      is at `k`. */
  lemma PositionOf<T>(s: seq<T>, k: nat)
    requires NoDuplicates(s) && k < |s|
    ensures Position(s, s[k]) == k
  {
  }

  /** `_addQuantityString`'s loop: read every category's text, escape it,
      keep the non-empty ones. */
  function PluralItems(p: QuantityStrings, language: Lang): (r: Result<seq<PluralItem>>)
    ensures r.Success? <==> language in p.plurals && forall q :: q in p.plurals[language]
    ensures language !in p.plurals ==> r == Failure(UnknownLanguage(language))
  {
    QuantityNames(Zero);
    assert forall q :: q in Quantities by {
      forall q ensures q in Quantities {
        QuantityNames(q);
      }
    }
    var texts :- QuantityTexts(p, language, Quantities);
    Success(Select(Quantities, EscapeAll(texts)))
  }

  /** The element one resource contributes for `language`, or why it
      cannot be built. */
  function Render(res: Resource, language: Lang): (r: Result<Element>)
    ensures r.Success? ==> Matches(r.value, res)
  {
    match res
    case StringRes(s) =>
      var t :- s.Get(language);
      Success(StringElement(s.key, Escape(t.value)))
    case ArrayRes(a) =>
      var texts :- a.GetArray(language);
      Success(ArrayElement(a.key, EscapeAll(texts)))
    case PluralsRes(p) =>
      var items :- PluralItems(p, language);
      Success(PluralsElement(p.key, items))
  }

  /** An element carries its resource's key and is of the matching kind. */
  predicate Matches(e: Element, res: Resource)
  {
    && e.Name() == res.Key()
    && (e.StringElement? <==> res.StringRes?)
    && (e.ArrayElement? <==> res.ArrayRes?)
    && (e.PluralsElement? <==> res.PluralsRes?)
  }

  /** Whether a resource holds what its handler reads for `language`. */
  predicate Renderable(res: Resource, language: Lang)
  {
    match res
    case StringRes(s) => language in s.Languages()
    case ArrayRes(a) => language in a.Languages()
    case PluralsRes(p) => language in p.plurals && forall q :: q in p.plurals[language]
  }

  // ---------------------------------------------------------------------
  // The handlers

  /** `_addString`: one `string` element, named by the key, holding the
      escaped text even when that text is empty. */
  lemma AddStringElement(s: StringResource, language: Lang)
    ensures Render(StringRes(s), language).Success? <==> language in s.Languages()
    ensures language !in s.Languages() ==> Render(StringRes(s), language) == Failure(UnknownLanguage(language))
    ensures language in s.Languages() ==>
              Render(StringRes(s), language) == Success(StringElement(s.key, Escape(s.strings[language].value)))
  {
  }

  /** `_addStringArray`: one item per stored index, ascending, each
      escaped; empty texts are kept. */
  lemma AddStringArrayElement(a: StringArray, language: Lang)
    ensures Render(ArrayRes(a), language).Success? <==> language in a.Languages()
    ensures language !in a.Languages() ==> Render(ArrayRes(a), language) == Failure(UnknownLanguage(language))
    ensures language in a.Languages() ==>
              var e := Render(ArrayRes(a), language).value;
              var order := SortedIndices(a.arrays[language].Keys);
              e.ArrayElement? && e.name == a.key &&
              |e.texts| == |order| == |a.arrays[language]| &&
              forall k :: 0 <= k < |e.texts| ==> e.texts[k] == Escape(a.arrays[language][order[k]].value)
  {
  }

  /** `_addQuantityString` on a resource with every category for the
      language: one `plurals` element named by the key, holding the items
      the loop keeps; only an undeclared language fails. */
  lemma AddQuantityElement(p: QuantityStrings, language: Lang)
    requires p.Complete()
    ensures Render(PluralsRes(p), language).Success? <==> language in p.Languages()
    ensures language !in p.Languages() ==> Render(PluralsRes(p), language) == Failure(UnknownLanguage(language))
    ensures language in p.Languages() ==>
              var e := Render(PluralsRes(p), language).value;
              e.PluralsElement? && e.name == p.key && e.items == PluralItems(p, language).value
  {
  }

  /** Each item of a `plurals` element holds the escaped, non-empty text of
      the category it is tagged with. */
  lemma PluralItemsTexts(p: QuantityStrings, language: Lang)
    requires PluralItems(p, language).Success?
    ensures var items := PluralItems(p, language).value;
            forall i :: 0 <= i < |items| ==>
              items[i].text == Escape(p.plurals[language][items[i].quantity].value) &&
              |p.plurals[language][items[i].quantity].value| > 0
  {
    var texts := QuantityTexts(p, language, Quantities).value;
    var escaped := EscapeAll(texts);
    var items := PluralItems(p, language).value;
    forall i | 0 <= i < |items|
      ensures items[i].text == Escape(p.plurals[language][items[i].quantity].value)
      ensures |p.plurals[language][items[i].quantity].value| > 0
    {
      var k := Source(Quantities, escaped, i);
      EscapeEmpty(texts[k].value);
    }
  }

  /** A category gets an item exactly when its text is non-empty. */
  lemma PluralItemsCover(p: QuantityStrings, language: Lang)
    requires PluralItems(p, language).Success?
    ensures var items := PluralItems(p, language).value;
            forall q :: (exists i :: 0 <= i < |items| && items[i].quantity == q) <==> |p.plurals[language][q].value| > 0
  {
    var texts := QuantityTexts(p, language, Quantities).value;
    var escaped := EscapeAll(texts);
    var items := PluralItems(p, language).value;
    PluralItemsTexts(p, language);
    forall q | |p.plurals[language][q].value| > 0
      ensures exists i :: 0 <= i < |items| && items[i].quantity == q
    {
      QuantityNames(q);
      var k := Position(Quantities, q);
      EscapeEmpty(texts[k].value);
      SelectCover(Quantities, escaped, k);
    }
  }

  /** Items follow the fixed category order. */
  lemma PluralItemsOrder(p: QuantityStrings, language: Lang)
    requires PluralItems(p, language).Success?
    ensures var items := PluralItems(p, language).value;
            forall i, j :: 0 <= i < j < |items| ==> Position(Quantities, items[i].quantity) < Position(Quantities, items[j].quantity)
  {
    QuantityNames(Zero);
    var texts := QuantityTexts(p, language, Quantities).value;
    var escaped := EscapeAll(texts);
    var items := PluralItems(p, language).value;
    forall i, j | 0 <= i < j < |items|
      ensures Position(Quantities, items[i].quantity) < Position(Quantities, items[j].quantity)
    {
      SourceMonotone(Quantities, escaped, i, j);
      PositionOf(Quantities, Source(Quantities, escaped, i));
      PositionOf(Quantities, Source(Quantities, escaped, j));
    }
  }

  /** Rendering succeeds exactly for a renderable resource. */
  lemma RenderSucceeds(res: Resource, language: Lang)
    ensures Render(res, language).Success? <==> Renderable(res, language)
  {
    if res.PluralsRes? {
      QuantityNames(Zero);
      forall q ensures q in Quantities {
        QuantityNames(q);
      }
    }
  }

  // ---------------------------------------------------------------------
  // addResources

  /** `addResources`: each resource, in order, goes to the handler for its
      kind, which appends one element; the first failure aborts. */
  function AddResources(g: AndroidGenerator, resources: seq<Resource>, language: Lang): (r: Result<AndroidGenerator>)
    ensures r.Success? <==> forall i :: 0 <= i < |resources| ==> Render(resources[i], language).Success?
    ensures r.Success? ==> |r.value.elements| == |g.elements| + |resources|
    ensures r.Success? ==> r.value.elements[..|g.elements|] == g.elements
    ensures r.Success? ==> forall i :: 0 <= i < |resources| ==>
              r.value.elements[|g.elements| + i] == Render(resources[i], language).value
    ensures r.Success? ==> forall i :: 0 <= i < |resources| ==>
              Matches(r.value.elements[|g.elements| + i], resources[i])
    decreases |resources|
  {
    if |resources| == 0 then Success(g)
    else
      var e :- Render(resources[0], language);
      var g' := AndroidGenerator(g.elements + [e]);
      var r :- AddResources(g', resources[1..], language);
      assert forall i :: 1 <= i < |resources| ==> resources[i] == resources[1..][i - 1];
      assert r.elements[..|g.elements|] == r.elements[..|g'.elements|][..|g.elements|];
      assert r.elements[|g.elements|] == g'.elements[|g.elements|];
      Success(r)
  }
}
