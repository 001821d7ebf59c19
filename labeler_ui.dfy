/**
 * fta/static/js/labeler.js: the in-browser element picker. The page being
 * labeled shows in an iframe; while picking is on, hovering highlights an
 * element and clicking adds it to `pickedElementsMap` with an empty tag.
 * Each picked element gets a text input for its tag and a remove button.
 * On submit, `handleFormSubmit` turns the map into the label data
 * `[{fta_id, label}, ...]`, writing a fresh `data-fta_id` onto elements
 * that have none.
 *
 * The JavaScript `Map` is modelled as the sequence of its entries in
 * insertion order, keyed by element identity. Overlays, positions, scroll
 * tracking and the form fields written at the end of `handleFormSubmit` are
 * not modelled; `uuidv4` is an injected id supply.
 */
module LabelerUi {
  import opened Wrappers
  import opened Dom

  /** An entry of `pickedElementsMap`: a picked element and the tag typed for it. */
  datatype Picked = Picked(element: Element, tag: string)

  /** An entry of the submitted label data, `{fta_id, label}`. */
  datatype LabelDatum = LabelDatum(ftaId: string, labelName: string)

  /** The elements of the map, in insertion order. */
  function Keys(m: seq<Picked>): (ks: seq<Element>)
    ensures |ks| == |m|
    ensures forall i :: 0 <= i < |m| ==> ks[i] == m[i].element
  {
    if m == [] then [] else [m[0].element] + Keys(m[1..])
  }

  /** `map.has(e)`. */
  predicate Has(m: seq<Picked>, e: Element) {
    e in Keys(m)
  }

  /** No element is in the map twice, as in any JavaScript `Map`. */
  predicate DistinctKeys(m: seq<Picked>) {
    forall i, j :: 0 <= i < j < |m| ==> m[i].element != m[j].element
  }

  /** `map.delete(e)`: the entries of other elements, in their order. */
  function Delete(m: seq<Picked>, e: Element): (r: seq<Picked>)
    ensures |r| <= |m|
  {
    if m == [] then []
    else (if m[0].element == e then [] else [m[0]]) + Delete(m[1..], e)
  }

  /** `map.get(e).tag = tag`: the entry of `e` gets the new tag, in place. */
  function SetTag(m: seq<Picked>, e: Element, tag: string): (r: seq<Picked>)
    ensures |r| == |m|
    ensures forall i :: 0 <= i < |m| ==> r[i].element == m[i].element
    ensures forall i :: 0 <= i < |m| ==> r[i].tag == if m[i].element == e then tag else m[i].tag
  {
    if m == [] then []
    else [if m[0].element == e then Picked(e, tag) else m[0]] + SetTag(m[1..], e, tag)
  }

  /** Deleting an element that is not in the map changes nothing. */
  lemma {:induction false} DeleteAbsent(m: seq<Picked>, e: Element)
    requires !Has(m, e)
    ensures Delete(m, e) == m
  {
    if m != [] {
      assert Keys(m)[0] == m[0].element;
      assert Keys(m[1..]) == Keys(m)[1..];
      DeleteAbsent(m[1..], e);
      assert [m[0]] + m[1..] == m;
    }
  }

  /** Deleting the element at position `i` removes exactly that entry and keeps the order of the rest. */
  lemma {:induction false} DeleteRemovesEntry(m: seq<Picked>, e: Element, i: nat)
    requires DistinctKeys(m) && i < |m| && m[i].element == e
    ensures Delete(m, e) == m[..i] + m[i + 1..]
  {
    if i == 0 {
      assert !Has(m[1..], e) by {
        forall j | 0 <= j < |m[1..]| ensures Keys(m[1..])[j] != e {
          assert m[1..][j] == m[j + 1];
        }
      }
      DeleteAbsent(m[1..], e);
    } else {
      assert DistinctKeys(m[1..]) by {
        forall a, b | 0 <= a < b < |m[1..]| ensures m[1..][a].element != m[1..][b].element {
          assert m[1..][a] == m[a + 1] && m[1..][b] == m[b + 1];
        }
      }
      DeleteRemovesEntry(m[1..], e, i - 1);
      assert m[1..][..i - 1] == m[1..i] && m[1..][i..] == m[i + 1..];
      assert [m[0]] + m[1..i] == m[..i];
    }
  }

  /** Deleting keeps the map free of duplicates. */
  lemma {:induction false} DeleteKeepsDistinct(m: seq<Picked>, e: Element)
    requires DistinctKeys(m)
    ensures DistinctKeys(Delete(m, e))
  {
    if Has(m, e) {
      var i :| 0 <= i < |m| && Keys(m)[i] == e;
      DeleteRemovesEntry(m, e, i);
      var r := m[..i] + m[i + 1..];
      forall a, b | 0 <= a < b < |r| ensures r[a].element != r[b].element {
        var a' := if a < i then a else a + 1;
        var b' := if b < i then b else b + 1;
        assert r[a] == m[a'] && r[b] == m[b'];
      }
    } else {
      DeleteAbsent(m, e);
    }
  }

  /** Setting a tag keeps the elements and their order. */
  lemma SetTagKeepsKeys(m: seq<Picked>, e: Element, tag: string)
    ensures Keys(SetTag(m, e, tag)) == Keys(m)
    ensures DistinctKeys(m) ==> DistinctKeys(SetTag(m, e, tag))
  {
  }

  // handleFormSubmit

  /** What `handleFormSubmit` reads of one map entry: its tag and the element's current `fta_id`, if any. */
  datatype SubmitItem = SubmitItem(tag: string, existingId: Option<string>)

  function ItemOf(p: Picked): SubmitItem
    reads p.element
  {
    SubmitItem(p.tag, if FtaIdAttr in p.element.attrs then Some(p.element.attrs[FtaIdAttr]) else None)
  }

  /** The entries of the map as `handleFormSubmit` finds them, in iteration order. */
  function ItemsOf(m: seq<Picked>): (items: seq<SubmitItem>)
    reads set i | 0 <= i < |m| :: m[i].element
    ensures |items| == |m|
    ensures forall i :: 0 <= i < |m| ==> items[i] == ItemOf(m[i])
  {
    if m == [] then []
    else
      assert forall i :: 0 <= i < |m| - 1 ==> m[..|m| - 1][i] == m[i];
      ItemsOf(m[..|m| - 1]) + [ItemOf(m[|m| - 1])]
  }

  /** The entry is emitted: its tag is not empty. */
  predicate Emits(item: SubmitItem) {
    item.tag != ""
  }

  /** The entry is emitted and its element has no `fta_id` yet, so it draws a new one. */
  predicate Draws(item: SubmitItem) {
    Emits(item) && item.existingId.None?
  }

  /** How many entries emit label data. */
  function EmitCount(items: seq<SubmitItem>): (n: nat)
    ensures n <= |items|
  {
    if items == [] then 0
    else EmitCount(items[..|items| - 1]) + (if Emits(items[|items| - 1]) then 1 else 0)
  }

  /** How many new ids the entries draw. */
  function DrawCount(items: seq<SubmitItem>): (n: nat)
    ensures n <= EmitCount(items)
  {
    if items == [] then 0
    else DrawCount(items[..|items| - 1]) + (if Draws(items[|items| - 1]) then 1 else 0)
  }

  /** The id submitted for entry `k`: the element's own, or the next draw from the supply. */
  function IdAt(items: seq<SubmitItem>, k: nat, supply: nat -> string): string
    requires k < |items|
  {
    match items[k].existingId
    case Some(id) => id
    case None => supply(DrawCount(items[..k]))
  }

  /** The label data `handleFormSubmit` builds from the entries. */
  function LabelData(items: seq<SubmitItem>, supply: nat -> string): (data: seq<LabelDatum>)
    ensures |data| == EmitCount(items)
  {
    if items == [] then []
    else
      var n := |items| - 1;
      assert items[..n][..n] == items[..n];
      var init := LabelData(items[..n], supply);
      if Emits(items[n]) then init + [LabelDatum(IdAt(items, n, supply), items[n].tag)] else init
  }

  /** An element's attributes after `handleFormSubmit`: a new `data-fta_id` when its entry draws one. */
  function AfterSubmit(attrs: Attrs, items: seq<SubmitItem>, k: nat, supply: nat -> string): Attrs
    requires k < |items|
  {
    if Draws(items[k]) then attrs[FtaIdAttr := IdAt(items, k, supply)] else attrs
  }

  /**
   * Entry `k` with a non-empty tag is emitted at position "number of
   * emitting entries before it", with its id and its tag: one datum per
   * non-empty tag, in map order.
   */
  lemma {:induction false} LabelDataEntry(items: seq<SubmitItem>, supply: nat -> string, k: nat)
    requires k < |items| && Emits(items[k])
    ensures EmitCount(items[..k]) < |LabelData(items, supply)|
    ensures LabelData(items, supply)[EmitCount(items[..k])] == LabelDatum(IdAt(items, k, supply), items[k].tag)
    decreases |items|
  {
    var n := |items| - 1;
    assert items[..n][..n] == items[..n];
    if k == n {
      assert items[..k] == items[..n];
    } else {
      assert items[..n][..k] == items[..k];
      assert items[..n][k] == items[k];
      LabelDataEntry(items[..n], supply, k);
      assert IdAt(items[..n], k, supply) == IdAt(items, k, supply);
      EmitCountGrows(items, k + 1, n);
    }
  }

  /** Counting over a longer prefix counts at least as many. */
  lemma {:induction false} EmitCountGrows(items: seq<SubmitItem>, a: nat, b: nat)
    requires a <= b <= |items|
    ensures EmitCount(items[..a]) <= EmitCount(items[..b])
    ensures DrawCount(items[..a]) <= DrawCount(items[..b])
    decreases b - a
  {
    if a < b {
      EmitCountGrows(items, a, b - 1);
      assert items[..b][..b - 1] == items[..b - 1];
    }
  }

  /** No datum carries an empty label. */
  lemma {:induction false} LabelDataTagsNonEmpty(items: seq<SubmitItem>, supply: nat -> string)
    ensures forall j :: 0 <= j < |LabelData(items, supply)| ==> LabelData(items, supply)[j].labelName != ""
    decreases |items|
  {
    if items != [] {
      LabelDataTagsNonEmpty(items[..|items| - 1], supply);
    }
  }

  /** An entry whose element already has an `fta_id` (even an empty one) is submitted with that id. */
  lemma ExistingIdKept(items: seq<SubmitItem>, supply: nat -> string, k: nat, id: string)
    requires k < |items| && Emits(items[k]) && items[k].existingId == Some(id)
    ensures EmitCount(items[..k]) < |LabelData(items, supply)|
    ensures LabelData(items, supply)[EmitCount(items[..k])] == LabelDatum(id, items[k].tag)
  {
    LabelDataEntry(items, supply, k);
  }

  /** Two entries that draw new ids draw different ones, when the supply never repeats. */
  lemma NewIdsDistinct(items: seq<SubmitItem>, supply: nat -> string, k1: nat, k2: nat)
    requires Injective(supply)
    requires k1 < k2 < |items| && Draws(items[k1]) && Draws(items[k2])
    ensures IdAt(items, k1, supply) != IdAt(items, k2, supply)
  {
    assert items[..k1 + 1][..k1] == items[..k1];
    EmitCountGrows(items, k1 + 1, k2);
  }

  /**
   * The picker's state: whether picking is on, the element under the
   * pointer, and `pickedElementsMap`.
   */
  class Picker {
    var picking: bool
    var hovered: Element
    var picked: seq<Picked>

    ghost predicate Valid()
      reads this
    {
      DistinctKeys(picked)
    }

    /** `createPickingUi`: picking starts as asked, over the page body, with an empty map. */
    constructor (startPicking: bool, body: Element)
      ensures picking == startPicking && hovered == body && picked == []
      ensures Valid()
    {
      picking := startPicking;
      hovered := body;
      picked := [];
    }

    /** `hoverHandler`: track the element under the pointer, only while picking. */
    method Hover(target: Element)
      modifies this
      ensures picking == old(picking) && picked == old(picked)
      ensures hovered == if old(picking) then target else old(hovered)
    {
      if !picking {
        return;
      }
      hovered := target;
    }

    /**
     * `clickHandler`: while picking, add an element not yet in the map with
     * an empty tag, at the end; an element already there keeps its tag.
     */
    method Click(target: Element)
      requires Valid()
      modifies this
      ensures Valid()
      ensures picking == old(picking) && hovered == old(hovered)
      ensures picked == if old(picking) && !Has(old(picked), target)
                        then old(picked) + [Picked(target, "")]
                        else old(picked)
    {
      if !picking {
        return;
      }
      if !Has(picked, target) {
        picked := picked + [Picked(target, "")];
      }
    }

    /** The remove button of the overlay of `target`: `pickedElementsMap.delete(target)`. */
    method Remove(target: Element)
      requires Valid()
      modifies this
      ensures Valid()
      ensures picking == old(picking) && hovered == old(hovered)
      ensures picked == Delete(old(picked), target)
    {
      DeleteKeepsDistinct(picked, target);
      picked := Delete(picked, target);
    }

    /**
     * Typing `value` into the tag input of `target`. `ok` is false when
     * `target` is no longer in the map: there `get` returns `undefined` and
     * the handler throws, changing nothing.
     */
    method Input(target: Element, value: string) returns (ok: bool)
      requires Valid()
      modifies this
      ensures Valid()
      ensures picking == old(picking) && hovered == old(hovered)
      ensures ok == Has(old(picked), target)
      ensures picked == if ok then SetTag(old(picked), target, value) else old(picked)
    {
      ok := Has(picked, target);
      if ok {
        SetTagKeepsKeys(picked, target, value);
        picked := SetTag(picked, target, value);
      }
    }

    /** The toggle button: flip picking. */
    method Toggle()
      modifies this
      ensures picking == !old(picking)
      ensures hovered == old(hovered) && picked == old(picked)
    {
      picking := !picking;
    }

    /**
     * `handleFormSubmit`: visit the map in order, skip empty tags, reuse an
     * element's `fta_id` or write the next id of the supply onto it, and
     * emit `{fta_id, label}` for each.
     */
    method Submit(supply: nat -> string) returns (labelData: seq<LabelDatum>)
      requires Valid()
      modifies set i | 0 <= i < |picked| :: picked[i].element
      ensures labelData == LabelData(old(ItemsOf(picked)), supply)
      ensures forall i :: 0 <= i < |picked| ==>
        picked[i].element.attrs == AfterSubmit(old(picked[i].element.attrs), old(ItemsOf(picked)), i, supply)
    {
      ghost var items := ItemsOf(picked);
      labelData := [];
      var drawn := 0;
      var i := 0;
      while i < |picked|
        invariant 0 <= i <= |picked|
        invariant labelData == LabelData(items[..i], supply)
        invariant drawn == DrawCount(items[..i])
        invariant forall j :: 0 <= j < i ==>
          picked[j].element.attrs == AfterSubmit(old(picked[j].element.attrs), items, j, supply)
        invariant forall j :: i <= j < |picked| ==> picked[j].element.attrs == old(picked[j].element.attrs)
      {
        var element := picked[i].element;
        var tag := picked[i].tag;
        assert items[..i + 1][..i] == items[..i];
        assert items[i] == ItemOf(picked[i]);
        if tag != "" {
          var id: string;
          if FtaIdAttr in element.attrs {
            id := element.attrs[FtaIdAttr];
          } else {
            id := supply(drawn);
            assert IdAt(items, i, supply) == id;
            assert forall j :: 0 <= j < |picked| && j != i ==> picked[j].element != element;
            drawn := drawn + 1;
            element.attrs := element.attrs[FtaIdAttr := id];
          }
          labelData := labelData + [LabelDatum(id, tag)];
        }
        i := i + 1;
      }
      assert items[..i] == items;
    }
  }
}
