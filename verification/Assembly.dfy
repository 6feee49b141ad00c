/** The daemon's side of a toot: its elements are collected in whatever order they come, and sorted at the end. */
module Assembly {
  import opened Bytes
  import opened Options

  /** A piece of text and its index. */
  datatype Element = Element(index: nat, text: seq<byte>)

  ghost predicate SortedByIndex(es: seq<Element>) {
    forall j, k :: 0 <= j < k < |es| ==> es[j].index <= es[k].index
  }

  ghost predicate StrictlyIncreasing(es: seq<Element>) {
    forall j, k :: 0 <= j < k < |es| ==> es[j].index < es[k].index
  }

  /** What sorting may make of the elements. */
  ghost predicate Reordered(es: seq<Element>, sorted: seq<Element>) {
    SortedByIndex(sorted) && multiset(sorted) == multiset(es)
  }

  /** The texts of the elements, one behind the other. */
  function Concat(es: seq<Element>): seq<byte> {
    if es == [] then [] else Concat(es[..|es| - 1]) + es[|es| - 1].text
  }

  /** sort.Slice by index, which need not be stable: all it promises is an ordered permutation. */
  method SortByIndex(es: seq<Element>) returns (r: seq<Element>)
    ensures Reordered(es, r)
  {
    r := [];
    for n := 0 to |es|
      invariant SortedByIndex(r) && multiset(r) == multiset(es[..n])
    {
      assert es[..n + 1] == es[..n] + [es[n]];
      r := Insert(r, es[n]);
    }
    assert es[..|es|] == es;
  }

  method Insert(sorted: seq<Element>, e: Element) returns (r: seq<Element>)
    requires SortedByIndex(sorted)
    ensures SortedByIndex(r) && multiset(r) == multiset(sorted) + multiset{e}
  {
    var at := 0;
    while at < |sorted| && sorted[at].index <= e.index
      invariant at <= |sorted| && forall k :: 0 <= k < at ==> sorted[k].index <= e.index
    {
      at := at + 1;
    }
    r := sorted[..at] + [e] + sorted[at..];
    Inserted(sorted, at, e);
    InsertedAll(sorted[..at], sorted[at..], e);
    hide SortedByIndex;
    assert sorted == sorted[..at] + sorted[at..];
  }

  lemma Inserted(sorted: seq<Element>, at: nat, e: Element)
    requires SortedByIndex(sorted) && at <= |sorted|
    requires forall k :: 0 <= k < at ==> sorted[k].index <= e.index
    requires at < |sorted| ==> e.index <= sorted[at].index
    ensures SortedByIndex(sorted[..at] + [e] + sorted[at..])
  {
    var r := sorted[..at] + [e] + sorted[at..];
    forall j, k | 0 <= j < k < |r| ensures r[j].index <= r[k].index {
      assert r[j] == if j < at then sorted[j] else if j == at then e else sorted[j - 1];
      assert r[k] == if k < at then sorted[k] else if k == at then e else sorted[k - 1];
    }
  }

  lemma InsertedAll(before: seq<Element>, after: seq<Element>, e: Element)
    ensures multiset(before + [e] + after) == multiset(before + after) + multiset{e}
  {
  }

  /** Only one ordered permutation exists when the indices are distinct. */
  lemma {:induction false} OnlyOneOrder(written: seq<Element>, sorted: seq<Element>)
    requires StrictlyIncreasing(written) && Reordered(written, sorted)
    ensures sorted == written
  {
    assert |sorted| == |multiset(sorted)| == |multiset(written)| == |written|;
    if written != [] {
      var n := |written| - 1;
      SameLast(written, sorted);
      assert StrictlyIncreasing(written[..n]) && SortedByIndex(sorted[..n]);
      hide StrictlyIncreasing, SortedByIndex;
      SplitLast(written);
      SplitLast(sorted);
      OnlyOneOrder(written[..n], sorted[..n]);
    }
  }

  lemma SplitLast(es: seq<Element>)
    requires es != []
    ensures es == es[..|es| - 1] + [es[|es| - 1]]
    ensures multiset(es[..|es| - 1]) == multiset(es) - multiset{es[|es| - 1]}
  {
    assert es == es[..|es| - 1] + [es[|es| - 1]];
  }

  lemma SameLast(written: seq<Element>, sorted: seq<Element>)
    requires StrictlyIncreasing(written) && Reordered(written, sorted)
    requires written != [] && |sorted| == |written|
    ensures sorted[|sorted| - 1] == written[|written| - 1]
  {
    var n := |written| - 1;
    assert written[n] in multiset(sorted) && sorted[n] in multiset(written);
    var j :| 0 <= j < |sorted| && sorted[j] == written[n];
    var k :| 0 <= k < |written| && written[k] == sorted[n];
  }

  class Toot {
    const id: nat
    var elements: seq<Element>

    constructor (id: nat)
      ensures this.id == id && elements == []
    {
      this.id, elements := id, [];
    }

    /** addElement. */
    method AddElement(index: nat, text: seq<byte>)
      modifies this
      ensures elements == old(elements) + [Element(index, text)]
    {
      elements := elements + [Element(index, text)];
    }

    /** GetText, which leaves the elements sorted. */
    method GetText() returns (text: seq<byte>)
      modifies this
      ensures Reordered(old(elements), elements) && text == Concat(elements)
    {
      elements := SortByIndex(elements);
      text := [];
      for n := 0 to |elements|
        invariant text == Concat(elements[..n])
      {
        text := text + elements[n].text;
        assert elements[..n + 1][..n] == elements[..n];
      }
      assert elements[..|elements|] == elements;
    }
  }

  class TootManage {
    var toots: map<nat, Toot>

    /** Every toot is held under its own id, so no two ids share one. */
    ghost predicate Valid()
      reads this, Toots()
    {
      forall id :: id in toots ==> toots[id].id == id
    }

    ghost function Toots(): set<object>
      reads this
    {
      set id | id in toots :: toots[id]
    }

    ghost function Contents(): (c: map<nat, seq<Element>>)
      reads this, Toots()
    {
      map id | id in toots :: toots[id].elements
    }

    constructor ()
      ensures Valid() && Contents() == map[] && Toots() == {}
    {
      toots := map[];
    }

    method NewToot(id: nat) returns (ok: bool)
      requires Valid()
      modifies this
      ensures Valid() && fresh(Toots() - old(Toots()))
      ensures ok <==> id !in old(Contents())
      ensures Contents() == if ok then old(Contents())[id := []] else old(Contents())
    {
      if id in toots {
        return false;
      }
      var toot := new Toot(id);
      toots := toots[id := toot];
      ok := true;
    }

    /** AddTootElement: how much text was taken, or no such toot. */
    method AddTootElement(id: nat, index: nat, text: seq<byte>) returns (taken: Option<nat>)
      requires Valid()
      modifies Toots()
      ensures Valid() && Toots() == old(Toots())
      ensures taken == if id in old(Contents()) then Some(|text|) else None
      ensures Contents() == if id in old(Contents())
                            then old(Contents())[id := old(Contents())[id] + [Element(index, text)]]
                            else old(Contents())
    {
      if id !in toots {
        return None;
      }
      toots[id].AddElement(index, text);
      taken := Some(|text|);
    }

    /** SendToot: the text handed to the sender, who may refuse it; then the toot stays, its elements sorted. */
    method SendToot(id: nat, accepted: bool) returns (text: Option<seq<byte>>, ok: bool)
      requires Valid()
      modifies this, Toots()
      ensures Valid() && Toots() <= old(Toots())
      ensures ok <==> id in old(Contents()) && accepted
      ensures text.Some? <==> id in old(Contents())
      ensures text.Some? ==>
                exists sorted :: Reordered(old(Contents())[id], sorted) && text == Some(Concat(sorted))
                  && Contents() == if accepted then old(Contents()) - {id} else old(Contents())[id := sorted]
      ensures text.None? ==> Contents() == old(Contents())
    {
      if id !in toots {
        return None, false;
      }
      var toot := toots[id];
      var status := toot.GetText();
      text, ok := Some(status), accepted;
      if !accepted {
        assert Contents() == old(Contents())[id := toot.elements];
        return;
      }
      toots := toots - {id};
      assert Contents() == old(Contents()) - {id};
    }
  }
}
