/**
 * The contract of `convert_fathom_sample_to_labeled_sample` as
 * fta/samples/tests.py pins it down. The conversion takes a page labeled in
 * the Fathom dialect (`data-fathom="<label>"`) and returns the page in the
 * internal dialect (`data-fta_id="<id>"`) together with a dictionary from
 * ids to labels. The conversion itself is not part of this model: the
 * contract holds exactly what the three tests assert, generalised the way
 * all three agree.
 */
module LabelerContract {
  import opened Dom

  /**
   * The output page and the id-to-label dictionary meet the contract for
   * the input page:
   *  - there is one dictionary entry per labeled input element;
   *  - the output page has exactly as many `data-fta_id` carriers as there
   *    are entries (the tests count carriers; which elements carry the ids,
   *    and with which values, is not asserted);
   *  - the labels in the dictionary are the labels of the input elements.
   */
  ghost predicate MeetsContract(input: seq<Attrs>, output: seq<Attrs>, idToLabel: map<string, string>) {
    && |idToLabel| == CountWith(input, FathomAttr)
    && CountWith(output, FtaIdAttr) == |idToLabel|
    && forall v :: v in idToLabel.Values <==> HasLabel(input, v)
  }

  /** Some element of `doc` is labeled `v` in the Fathom dialect. */
  ghost predicate HasLabel(doc: seq<Attrs>, v: string) {
    exists i :: 0 <= i < |doc| && FathomAttr in doc[i] && doc[i][FathomAttr] == v
  }

  // The page fragments of fta/samples/tests.py, one attribute map per
  // element in document order. The `value` attribute the tests write as
  // `value=` followed by `/>` is left out: what a parser makes of it varies,
  // and no test looks at it.

  /** `<html>`, `<head>`, `<meta>`, `<title>` and `<body>` of PAGE_BEGIN. */
  function PageBegin(): seq<Attrs> {
    [ map["lang" := "en-us"],
      map[],
      map["charset" := "utf-8"],
      map[],
      map["class" := "app-polls model-question change-list"] ]
  }

  function SearchFathomLabel(): Attrs {
    map[FathomAttr := "search", "id" := "searchbar", "name" := "q", "type" := "text"]
  }

  function EmailFathomLabel(): Attrs {
    map[FathomAttr := "email", "id" := "id2", "name" := "question_text", "type" := "text"]
  }

  function NoLabel(): Attrs {
    map["id" := "id_question_text", "name" := "question_text", "type" := "text"]
  }

  function WithFtaId(): Attrs {
    map[FtaIdAttr := "1234", "id" := "id1", "name" := "n", "type" := "text"]
  }

  function MultipleElementsSameLabel(): seq<Attrs> {
    [ map[FtaIdAttr := "aaa", FathomAttr := "email"],
      map[FtaIdAttr := "bbb", FathomAttr := "email"] ]
  }

  /** The page elements other than the labeled inputs carry neither dialect's attribute. */
  lemma PageBeginUnlabeled()
    ensures CountWith(PageBegin(), FathomAttr) == 0
    ensures CountWith(PageBegin(), FtaIdAttr) == 0
  {
  }

  /** Counting over a concatenation adds the counts. */
  lemma {:induction false} CountWithAppend(a: seq<Attrs>, b: seq<Attrs>, key: string)
    ensures CountWith(a + b, key) == CountWith(a, key) + CountWith(b, key)
  {
    if a == [] {
      assert a + b == b;
    } else {
      assert (a + b)[1..] == a[1..] + b;
      CountWithAppend(a[1..], b, key);
    }
  }

  /** A label on one of the elements `tail` adds after the page start. */
  lemma HasLabelIn(doc: seq<Attrs>, tail: seq<Attrs>, k: nat, v: string)
    requires doc == PageBegin() + tail && k < |tail| && FathomAttr in tail[k] && tail[k][FathomAttr] == v
    ensures HasLabel(doc, v)
  {
    assert doc[5 + k] == tail[k];
  }

  /** The only labels of `doc` are those of the elements `tail` adds after the page start. */
  lemma LabelsOfTail(doc: seq<Attrs>, tail: seq<Attrs>, v: string)
    requires doc == PageBegin() + tail && HasLabel(doc, v)
    ensures exists k :: 0 <= k < |tail| && FathomAttr in tail[k] && tail[k][FathomAttr] == v
  {
    PageBeginUnlabeled();
    var i :| 0 <= i < |doc| && FathomAttr in doc[i] && doc[i][FathomAttr] == v;
    if i < 5 {
      assert false;
    } else {
      assert doc[i] == tail[i - 5];
    }
  }

  /** The page of the first test: one search box, one unlabeled input, one input with a stale id. */
  function OneLabeledPage(): seq<Attrs> {
    PageBegin() + [SearchFathomLabel(), NoLabel(), WithFtaId()]
  }

  /** The page of the second test: a search box and an email input labeled, one input with a stale id. */
  function TwoLabeledPage(): seq<Attrs> {
    PageBegin() + [SearchFathomLabel(), EmailFathomLabel(), WithFtaId()]
  }

  /** The page of the third test: two inputs labeled "email", each already carrying an id. */
  function SameLabelPage(): seq<Attrs> {
    PageBegin() + MultipleElementsSameLabel()
  }

  /**
   * test_convert_fathom_sample_to_labeled_sample_1_labeled_element: one
   * entry, "search" among the labels, and one `data-fta_id` in the output.
   */
  lemma OneLabeledElement(output: seq<Attrs>, idToLabel: map<string, string>)
    requires MeetsContract(OneLabeledPage(), output, idToLabel)
    ensures |idToLabel| == 1
    ensures "search" in idToLabel.Values
    ensures CountWith(output, FtaIdAttr) == 1
  {
    var tail := [SearchFathomLabel(), NoLabel(), WithFtaId()];
    PageBeginUnlabeled();
    CountWithAppend(PageBegin(), tail, FathomAttr);
    assert CountWith(tail, FathomAttr) == 1 by {
      assert tail[1..] == [NoLabel(), WithFtaId()];
      assert tail[2..] == [WithFtaId()];
    }
    HasLabelIn(OneLabeledPage(), tail, 0, "search");
  }

  /**
   * test_convert_fathom_sample_to_labeled_sample_2_labeled_elements: two
   * entries, "search" and "email" among the labels, and two `data-fta_id`
   * in the output, not three.
   */
  lemma TwoLabeledElements(output: seq<Attrs>, idToLabel: map<string, string>)
    requires MeetsContract(TwoLabeledPage(), output, idToLabel)
    ensures |idToLabel| == 2
    ensures "search" in idToLabel.Values && "email" in idToLabel.Values
    ensures CountWith(output, FtaIdAttr) == 2
  {
    var tail := [SearchFathomLabel(), EmailFathomLabel(), WithFtaId()];
    PageBeginUnlabeled();
    CountWithAppend(PageBegin(), tail, FathomAttr);
    assert CountWith(tail, FathomAttr) == 2 by {
      assert tail[1..] == [EmailFathomLabel(), WithFtaId()];
      assert tail[2..] == [WithFtaId()];
    }
    HasLabelIn(TwoLabeledPage(), tail, 0, "search");
    HasLabelIn(TwoLabeledPage(), tail, 1, "email");
  }

  /**
   * test_convert_fathom_sample_to_labeled_sample_multiple_elements_same_label:
   * two entries (so two distinct ids), both labeled "email", and two
   * `data-fta_id` in the output.
   */
  lemma TwoElementsSameLabel(output: seq<Attrs>, idToLabel: map<string, string>)
    requires MeetsContract(SameLabelPage(), output, idToLabel)
    ensures |idToLabel| == 2
    ensures "email" in idToLabel.Values
    ensures forall id :: id in idToLabel ==> idToLabel[id] == "email"
    ensures CountWith(output, FtaIdAttr) == 2
  {
    var tail := MultipleElementsSameLabel();
    PageBeginUnlabeled();
    CountWithAppend(PageBegin(), tail, FathomAttr);
    assert CountWith(tail, FathomAttr) == 2 by {
      assert tail[1..] == [map[FtaIdAttr := "bbb", FathomAttr := "email"]];
    }
    HasLabelIn(SameLabelPage(), tail, 0, "email");
    forall id | id in idToLabel ensures idToLabel[id] == "email" {
      assert idToLabel[id] in idToLabel.Values;
      OnlyEmailLabels(idToLabel[id]);
    }
  }

  /** The third test's page has no label other than "email". */
  lemma OnlyEmailLabels(v: string)
    requires HasLabel(SameLabelPage(), v)
    ensures v == "email"
  {
    var tail := MultipleElementsSameLabel();
    LabelsOfTail(SameLabelPage(), tail, v);
    var k :| 0 <= k < |tail| && FathomAttr in tail[k] && tail[k][FathomAttr] == v;
    assert k == 0 || k == 1;
  }

  /**
   * One conversion meeting the contract, used only to show that the
   * contract can be met: every `data-fta_id` of the input is dropped, and
   * each labeled element, in document order, gets the next id of the supply.
   */
  function Witness(input: seq<Attrs>, supply: nat -> string): (seq<Attrs>, map<string, string>)
    decreases |input|
  {
    if input == [] then ([], map[])
    else
      var (out, idToLabel) := Witness(input[..|input| - 1], supply);
      var e := input[|input| - 1];
      if FathomAttr in e then
        (out + [e[FtaIdAttr := supply(|idToLabel|)]], idToLabel[supply(|idToLabel|) := e[FathomAttr]])
      else (out + [e - {FtaIdAttr}], idToLabel)
  }

  /** A label of `init + [e]` is a label of `init` or the label of `e`. */
  lemma HasLabelSnoc(init: seq<Attrs>, e: Attrs, v: string)
    ensures HasLabel(init + [e], v) <==> HasLabel(init, v) || (FathomAttr in e && e[FathomAttr] == v)
  {
    var doc := init + [e];
    if HasLabel(init, v) {
      var i :| 0 <= i < |init| && FathomAttr in init[i] && init[i][FathomAttr] == v;
      assert doc[i] == init[i];
    }
    if FathomAttr in e && e[FathomAttr] == v {
      assert doc[|init|] == e;
    }
    if HasLabel(doc, v) {
      var i :| 0 <= i < |doc| && FathomAttr in doc[i] && doc[i][FathomAttr] == v;
      if i < |init| {
        assert doc[i] == init[i];
      }
    }
  }

  /** Adding an entry under a new key adds its label to the labels. */
  lemma ValuesOfNewKey(m: map<string, string>, key: string, v: string)
    requires key !in m
    ensures forall w :: w in m[key := v].Values <==> w in m.Values || w == v
  {
    var m' := m[key := v];
    forall w | w in m.Values ensures w in m'.Values {
      var y :| y in m && m[y] == w;
      assert m'[y] == w;
    }
    assert m'[key] == v;
  }

  /** The witness draws one id per labeled element, in order, and keeps one entry per id. */
  lemma {:induction false} WitnessIds(input: seq<Attrs>, supply: nat -> string)
    requires Injective(supply)
    ensures |Witness(input, supply).1| == CountWith(input, FathomAttr)
    ensures Witness(input, supply).1.Keys == set k | 0 <= k < |Witness(input, supply).1| :: supply(k)
    decreases |input|
  {
    if input != [] {
      var init := input[..|input| - 1];
      var e := input[|input| - 1];
      assert input == init + [e];
      WitnessIds(init, supply);
      CountWithAppend(init, [e], FathomAttr);
      var m := Witness(init, supply).1;
      if FathomAttr in e {
        var id := supply(|m|);
        NextIdIsNew(m, supply);
        assert m[id := e[FathomAttr]].Keys == m.Keys + {id};
      }
    }
  }

  /** The witness output carries as many ids as its dictionary has entries. */
  lemma {:induction false} WitnessOutputIds(input: seq<Attrs>, supply: nat -> string)
    requires Injective(supply)
    ensures CountWith(Witness(input, supply).0, FtaIdAttr) == |Witness(input, supply).1|
    decreases |input|
  {
    if input != [] {
      var init := input[..|input| - 1];
      var e := input[|input| - 1];
      WitnessOutputIds(init, supply);
      WitnessIds(init, supply);
      var (out, m) := Witness(init, supply);
      if FathomAttr in e {
        var id := supply(|m|);
        NextIdIsNew(m, supply);
        CountWithAppend(out, [e[FtaIdAttr := id]], FtaIdAttr);
      } else {
        CountWithAppend(out, [e - {FtaIdAttr}], FtaIdAttr);
      }
    }
  }

  /** The witness dictionary holds exactly the labels of the input. */
  lemma {:induction false} WitnessLabels(input: seq<Attrs>, supply: nat -> string)
    requires Injective(supply)
    ensures forall v :: v in Witness(input, supply).1.Values <==> HasLabel(input, v)
    decreases |input|
  {
    if input != [] {
      var init := input[..|input| - 1];
      var e := input[|input| - 1];
      assert input == init + [e];
      WitnessLabels(init, supply);
      WitnessIds(init, supply);
      var m := Witness(init, supply).1;
      var m' := Witness(input, supply).1;
      if FathomAttr in e {
        var id := supply(|m|);
        NextIdIsNew(m, supply);
        assert m' == m[id := e[FathomAttr]];
        ValuesOfNewKey(m, id, e[FathomAttr]);
      } else {
        assert m' == m;
      }
      forall v ensures v in m'.Values <==> HasLabel(input, v) {
        HasLabelSnoc(init, e, v);
      }
    }
  }

  /** The next id drawn is not yet a key of a dictionary keyed by the earlier draws. */
  lemma NextIdIsNew(m: map<string, string>, supply: nat -> string)
    requires Injective(supply)
    requires m.Keys == set k | 0 <= k < |m| :: supply(k)
    ensures supply(|m|) !in m
  {
    if supply(|m|) in m {
      assert false;
    }
  }

  /** Every input page, given an id supply that never repeats, has an output meeting the contract. */
  lemma ContractSatisfiable(input: seq<Attrs>, supply: nat -> string)
    requires Injective(supply)
    ensures exists output, idToLabel :: MeetsContract(input, output, idToLabel)
  {
    WitnessIds(input, supply);
    WitnessOutputIds(input, supply);
    WitnessLabels(input, supply);
    var (output, idToLabel) := Witness(input, supply);
    assert MeetsContract(input, output, idToLabel);
  }
}
