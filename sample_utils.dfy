/**
 * fta/samples/utils.py: the exporter that stamps `data-fathom` labels onto
 * the elements a labeled sample identifies by `data-fta_id`, and the
 * `humansize` byte-count formatter.
 */
module SampleUtils {
  import opened Wrappers
  import opened Dom
  import opened PyStr

  // ---------------------------------------------------------------------------
  // Exporter: convert_labeled_sample_to_fathom_sample
  // ---------------------------------------------------------------------------

  /** One stored labeled element: the `data-fta_id` it names and its label's slug. */
  datatype LabeledElement = LabeledElement(dataFtaId: string, slug: string)

  /**
   * The value `find_all(attrs={"data-fta_id": id})` compares `id` with: the
   * element's `data-fta_id`, or "" when it has none. BeautifulSoup 4 up to
   * 4.12 (`SoupStrainer._matches`) lets a missing attribute match any
   * false-y search value, so an element without the attribute is found by
   * the empty id.
   */
  function SearchedId(attrs: Attrs): string {
    if FtaIdAttr in attrs then attrs[FtaIdAttr] else ""
  }

  /** `find_all(attrs={"data-fta_id": id})` finds the element. */
  predicate FoundBy(attrs: Attrs, id: string) {
    SearchedId(attrs) == id
  }

  /** What one labeled element does to one element's attributes. */
  function StampOne(attrs: Attrs, stored: LabeledElement): Attrs {
    if FoundBy(attrs, stored.dataFtaId) then attrs[FathomAttr := stored.slug] else attrs
  }

  /** An element's attributes after the labeled elements are applied in order. */
  function Stamp(attrs: Attrs, labels: seq<LabeledElement>): Attrs
    decreases |labels|
  {
    if labels == [] then attrs
    else StampOne(Stamp(attrs, labels[..|labels| - 1]), labels[|labels| - 1])
  }

  /** The position of the last labeled element naming `id`, if any names it. */
  function LastIndexFor(labels: seq<LabeledElement>, id: string): (r: Option<nat>)
    ensures r.None? <==> forall k :: 0 <= k < |labels| ==> labels[k].dataFtaId != id
    ensures r.Some? ==> r.value < |labels| && labels[r.value].dataFtaId == id
    ensures r.Some? ==> forall k :: r.value < k < |labels| ==> labels[k].dataFtaId != id
    decreases |labels|
  {
    if labels == [] then None
    else if labels[|labels| - 1].dataFtaId == id then Some(|labels| - 1)
    else
      var r := LastIndexFor(labels[..|labels| - 1], id);
      assert forall k :: 0 <= k < |labels| - 1 ==> labels[..|labels| - 1][k] == labels[k];
      r
  }

  /**
   * The slug of the last labeled element naming `id`, if any names it: the
   * reference answer to "what does an element carrying this id end up as".
   */
  function LastSlugFor(labels: seq<LabeledElement>, id: string): Option<string> {
    match LastIndexFor(labels, id)
    case None => None
    case Some(k) => Some(labels[k].slug)
  }

  /**
   * Last write wins: an element ends with `data-fathom` set to the slug of
   * the LAST labeled element naming its `data-fta_id` (or naming "", for an
   * element without one); an element whose id no labeled element names
   * keeps its attributes as they were (its `data-fathom`, if any, is
   * neither added nor removed).
   */
  lemma {:induction false} StampIsLastWrite(attrs: Attrs, labels: seq<LabeledElement>)
    ensures Stamp(attrs, labels) ==
      if LastSlugFor(labels, SearchedId(attrs)).Some?
      then attrs[FathomAttr := LastSlugFor(labels, SearchedId(attrs)).value]
      else attrs
    decreases |labels|
  {
    if labels != [] {
      var init := labels[..|labels| - 1];
      StampIsLastWrite(attrs, init);
      StampKeepsId(attrs, init);
    }
  }

  /** Stamping never changes `data-fta_id`. */
  lemma {:induction false} StampKeepsId(attrs: Attrs, labels: seq<LabeledElement>)
    ensures FtaIdAttr in Stamp(attrs, labels) <==> FtaIdAttr in attrs
    ensures FtaIdAttr in attrs ==> Stamp(attrs, labels)[FtaIdAttr] == attrs[FtaIdAttr]
    decreases |labels|
  {
    if labels != [] {
      StampKeepsId(attrs, labels[..|labels| - 1]);
    }
  }

  /**
   * The exporter only ever writes `data-fathom`: every other attribute is
   * present afterwards exactly when it was before, with the same value, and
   * `data-fathom` is only added to an element that carries a `data-fta_id`,
   * or to any element when some labeled element names the empty id.
   */
  lemma OnlyFathomChanges(attrs: Attrs, labels: seq<LabeledElement>)
    ensures forall key :: key != FathomAttr ==>
      (key in Stamp(attrs, labels) <==> key in attrs)
    ensures forall key :: key != FathomAttr && key in attrs ==>
      Stamp(attrs, labels)[key] == attrs[key]
    ensures FathomAttr in Stamp(attrs, labels) ==>
      FathomAttr in attrs || FtaIdAttr in attrs || LastIndexFor(labels, "").Some?
  {
    StampIsLastWrite(attrs, labels);
  }

  /** Every element found by a labeled id gets that label (not only the first such element). */
  lemma EveryMatchIsLabeled(attrs: Attrs, labels: seq<LabeledElement>, k: nat)
    requires k < |labels| && FoundBy(attrs, labels[k].dataFtaId)
    requires forall k' :: k < k' < |labels| ==> labels[k'].dataFtaId != labels[k].dataFtaId
    ensures FathomAttr in Stamp(attrs, labels)
    ensures Stamp(attrs, labels)[FathomAttr] == labels[k].slug
  {
    StampIsLastWrite(attrs, labels);
    assert LastIndexFor(labels, labels[k].dataFtaId) == Some(k);
  }

  /** A labeled id that does not find the element changes nothing for it. */
  lemma UnknownIdIgnored(attrs: Attrs, labels: seq<LabeledElement>, stored: LabeledElement)
    requires !FoundBy(attrs, stored.dataFtaId)
    ensures Stamp(attrs, labels + [stored]) == Stamp(attrs, labels)
  {
    StampKeepsId(attrs, labels);
    assert (labels + [stored])[..|labels|] == labels;
  }

  /**
   * A labeled element with the empty id stamps every element that has no
   * `data-fta_id`: the missing attribute matches the empty search value.
   */
  lemma EmptyIdStampsUnidentified(attrs: Attrs, labels: seq<LabeledElement>, slug: string)
    requires FtaIdAttr !in attrs
    ensures Stamp(attrs, labels + [LabeledElement("", slug)]) == Stamp(attrs, labels)[FathomAttr := slug]
  {
    StampKeepsId(attrs, labels);
    assert (labels + [LabeledElement("", slug)])[..|labels|] == labels;
  }

  /** Applying one more labeled element extends the fold by one step. */
  lemma StampPrefix(attrs: Attrs, labels: seq<LabeledElement>, k: nat)
    requires k < |labels|
    ensures Stamp(attrs, labels[..k + 1]) == StampOne(Stamp(attrs, labels[..k]), labels[k])
  {
    assert labels[..k + 1][..k] == labels[..k];
  }

  /** `soup.find_all` over the elements `es`: those it finds by `id`, in order. */
  function Matching(es: seq<Element>, id: string): (r: seq<Element>)
    reads set e | e in es
    ensures forall k :: 0 <= k < |r| ==> r[k] in es && FoundBy(r[k].attrs, id)
    ensures forall k :: 0 <= k < |es| && FoundBy(es[k].attrs, id) ==> es[k] in r
    ensures |r| <= |es|
  {
    if es == [] then []
    else (if FoundBy(es[0].attrs, id) then [es[0]] else []) + Matching(es[1..], id)
  }

  /** `soup.find_all(attrs={"data-fta_id": id})`: the elements it finds, in document order. */
  method FindAllByFtaId(doc: array<Element>, id: string) returns (found: seq<Element>)
    ensures found == Matching(doc[..], id)
  {
    found := [];
    var i := doc.Length;
    while i > 0
      invariant 0 <= i <= doc.Length
      invariant found == Matching(doc[i..], id)
    {
      i := i - 1;
      assert doc[i..][1..] == doc[i + 1..];
      if FoundBy(doc[i].attrs, id) {
        found := [doc[i]] + found;
      }
    }
    assert doc[0..] == doc[..];
  }

  /** The inner loop of the exporter: `element.attrs["data-fathom"] = slug` for each tagged element. */
  method SetFathomOnEach(tagged: seq<Element>, slug: string)
    modifies set e | e in tagged
    ensures forall e :: e in tagged ==> e.attrs == old(e.attrs)[FathomAttr := slug]
  {
    var m := 0;
    while m < |tagged|
      invariant 0 <= m <= |tagged|
      invariant forall e :: e in tagged ==>
        e.attrs == if e in tagged[..m] then old(e.attrs)[FathomAttr := slug] else old(e.attrs)
    {
      var element := tagged[m];
      element.attrs := element.attrs[FathomAttr := slug];
      assert tagged[..m + 1] == tagged[..m] + [element];
      m := m + 1;
    }
    assert tagged[..m] == tagged;
  }

  /**
   * `convert_labeled_sample_to_fathom_sample`: for each stored labeled
   * element in turn, set `data-fathom` to its slug on every element
   * `find_all` finds by its id. Elements are updated in place; the array of
   * elements itself (which elements there are, and their order) is untouched.
   */
  method ConvertLabeledSampleToFathomSample(doc: array<Element>, labels: seq<LabeledElement>)
    modifies set e | e in doc[..]
    ensures forall i :: 0 <= i < doc.Length ==> doc[i].attrs == Stamp(old(doc[i].attrs), labels)
  {
    var k := 0;
    while k < |labels|
      invariant 0 <= k <= |labels|
      invariant forall i :: 0 <= i < doc.Length ==> doc[i].attrs == Stamp(old(doc[i].attrs), labels[..k])
    {
      var stored := labels[k];
      var tagged := FindAllByFtaId(doc, stored.dataFtaId);
      label Found:
      SetFathomOnEach(tagged, stored.slug);
      forall i | 0 <= i < doc.Length
        ensures doc[i].attrs == Stamp(old(doc[i].attrs), labels[..k + 1])
      {
        StampPrefix(old(doc[i].attrs), labels, k);
        assert doc[i] in tagged <==> FoundBy(old@Found(doc[i].attrs), stored.dataFtaId);
      }
      k := k + 1;
    }
    assert labels[..k] == labels;
  }

  // ---------------------------------------------------------------------------
  // humansize
  // ---------------------------------------------------------------------------

  const Suffixes: seq<string> := ["B", "KB", "MB", "GB", "TB", "PB"]

  /** 1024 to the power `i`. */
  function Pow1024(i: nat): (r: nat)
    ensures r >= 1
  {
    if i == 0 then 1 else 1024 * Pow1024(i - 1)
  }

  /**
   * The index of the unit `humansize` picks: the largest `i <= 5` with
   * `nbytes >= 1024^i` (0 when `nbytes < 1024`, including negative counts).
   */
  function UnitIndex(nbytes: int): (i: nat)
    ensures i < |Suffixes|
    ensures i > 0 ==> nbytes >= Pow1024(i)
    ensures i < |Suffixes| - 1 ==> nbytes < Pow1024(i + 1)
  {
    if nbytes < Pow1024(1) then 0
    else if nbytes < Pow1024(2) then 1
    else if nbytes < Pow1024(3) then 2
    else if nbytes < Pow1024(4) then 3
    else if nbytes < Pow1024(5) then 4
    else 5
  }

  /** Powers of 1024 grow with the exponent. */
  lemma {:induction false} Pow1024Grows(i: nat, j: nat)
    requires i <= j
    ensures Pow1024(i) <= Pow1024(j)
    decreases j - i
  {
    if i < j {
      Pow1024Grows(i, j - 1);
    }
  }

  /**
   * The unit is determined by its bounds: the only index `i <= 5` with
   * `nbytes >= 1024^i` (for `i > 0`) and `nbytes < 1024^(i+1)` (for `i < 5`)
   * is UnitIndex(nbytes).
   */
  lemma UnitIndexIsUnique(nbytes: int, i: nat)
    requires i < |Suffixes|
    requires i > 0 ==> nbytes >= Pow1024(i)
    requires i < |Suffixes| - 1 ==> nbytes < Pow1024(i + 1)
    ensures i == UnitIndex(nbytes)
  {
    var u := UnitIndex(nbytes);
    if i < u {
      Pow1024Grows(i + 1, u);
    } else if u < i {
      Pow1024Grows(u + 1, i);
    }
  }

  /** The count expressed in the chosen unit: `nbytes / 1024^i`, exactly. */
  function Scaled(nbytes: int): real {
    nbytes as real / Pow1024(UnitIndex(nbytes)) as real
  }

  /** `("%.2f" % x).rstrip("0").rstrip(".")` once `%.2f` has produced `formatted`. */
  function TrimNumber(formatted: string): (r: string)
    ensures r == [] || r[|r| - 1] != '.'
  {
    RStripChar(RStripChar(formatted, '0'), '.')
  }

  /**
   * `humansize(nbytes)` given the `%.2f` formatter: the trimmed number, a
   * space, then the suffix of the chosen unit.
   */
  function HumanSizeOf(nbytes: int, format2: real -> string): string {
    TrimNumber(format2(Scaled(nbytes))) + " " + Suffixes[UnitIndex(nbytes)]
  }

  /** One division step of the loop stays exact: `x / 1024^i / 1024 == x / 1024^(i+1)`. */
  lemma DivideOnce(x: real, i: nat)
    ensures x / Pow1024(i) as real / 1024.0 == x / Pow1024(i + 1) as real
  {
    var p := Pow1024(i) as real;
    assert Pow1024(i + 1) as real == p * 1024.0;
  }

  /** `x / 1024^i >= 1024` exactly when `x >= 1024^(i+1)`. */
  lemma ScaledAtLeastUnit(x: int, i: nat)
    ensures x as real / Pow1024(i) as real >= 1024.0 <==> x >= Pow1024(i + 1)
  {
    var p := Pow1024(i) as real;
    assert Pow1024(i + 1) as real == p * 1024.0;
    assert x as real / p * p == x as real;
  }

  /**
   * `humansize` in fta/samples/utils.py: divide by 1024 while the value is
   * at least 1024 and a larger unit remains, then format.
   */
  method HumanSize(nbytes: int, format2: real -> string) returns (s: string)
    ensures s == HumanSizeOf(nbytes, format2)
  {
    var value := nbytes as real;
    var i := 0;
    while value >= 1024.0 && i < |Suffixes| - 1
      invariant 0 <= i < |Suffixes|
      invariant value == nbytes as real / Pow1024(i) as real
      invariant i > 0 ==> nbytes >= Pow1024(i)
    {
      ScaledAtLeastUnit(nbytes, i);
      DivideOnce(nbytes as real, i);
      value := value / 1024.0;
      i := i + 1;
    }
    ScaledAtLeastUnit(nbytes, i);
    UnitIndexIsUnique(nbytes, i);
    var f := TrimNumber(format2(value));
    s := f + " " + Suffixes[i];
  }

  /** The suffix is "B" exactly when the count is below 1024. */
  lemma SuffixIsBytesIff(nbytes: int)
    ensures Suffixes[UnitIndex(nbytes)] == "B" <==> nbytes < 1024
  {
  }

  /** From 1024^5 bytes on the suffix is "PB", however large the count. */
  lemma SuffixCapsAtPetabytes(nbytes: int)
    requires nbytes >= Pow1024(5)
    ensures Suffixes[UnitIndex(nbytes)] == "PB"
    ensures Scaled(nbytes) == nbytes as real / Pow1024(5) as real
  {
  }

  /** The scaled value is at least 1 once a unit above bytes is chosen, and below 1024 unless the unit is PB. */
  lemma ScaledInRange(nbytes: int)
    ensures UnitIndex(nbytes) > 0 ==> Scaled(nbytes) >= 1.0
    ensures UnitIndex(nbytes) < |Suffixes| - 1 ==> Scaled(nbytes) < 1024.0
  {
    var i := UnitIndex(nbytes);
    var p := Pow1024(i) as real;
    assert nbytes as real / p * p == nbytes as real;
    if i < |Suffixes| - 1 {
      ScaledAtLeastUnit(nbytes, i);
    }
  }

  predicate IsDigit(c: char) {
    '0' <= c <= '9'
  }

  /**
   * On a `%.2f` rendering `integral "." d1 d2`, where `integral` is the
   * integer part with any "-" sign, trimming keeps the integer part
   * (rstrip("0") stops at the "."), drops only trailing fractional zeros,
   * and drops the "." when both fractional digits are zero.
   */
  lemma TrimKeepsIntegerDigits(integral: string, d1: char, d2: char)
    requires integral != [] && IsDigit(integral[|integral| - 1])
    requires IsDigit(d1) && IsDigit(d2)
    ensures TrimNumber(integral + "." + [d1, d2]) ==
      if d2 != '0' then integral + "." + [d1, d2]
      else if d1 != '0' then integral + "." + [d1]
      else integral
  {
    var f := integral + "." + [d1, d2];
    var last := |integral| - 1;
    assert integral[..last + 1] == integral;
    assert RStripChar(integral, '.') == integral;
    if d2 != '0' {
      assert RStripChar(f, '0') == f;
    } else {
      assert f[..|f| - 1] == integral + "." + [d1];
      assert RStripChar(f, '0') == RStripChar(integral + "." + [d1], '0');
      if d1 != '0' {
        assert RStripChar(integral + "." + [d1], '0') == integral + "." + [d1];
      } else {
        assert (integral + "." + [d1])[..|integral| + 1] == integral + ".";
        assert RStripChar(integral + "." + [d1], '0') == integral + ".";
        assert (integral + ".")[..|integral|] == integral;
        assert RStripChar(integral + ".", '.') == RStripChar(integral, '.');
      }
    }
  }
}
