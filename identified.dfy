/**
 * The ordered, identifier-keyed collection both pickers keep their items in
 * (IdentifiedArrayOf<Item>), with the three operations the reducers use on it:
 * membership by identifier, removal by identifier and append.
 */
module Identified {

  /** A selectable item: a stable identifier and a display title. */
  datatype Item = Item(id: int, title: string)

  /** The identifiers held by `s`. */
  function Ids(s: seq<Item>): set<int> {
    set i | 0 <= i < |s| :: s[i].id
  }

  /** No two positions of `s` carry the same identifier. */
  predicate DistinctIds(s: seq<Item>) {
    forall i, j :: 0 <= i < j < |s| ==> s[i].id != s[j].id
  }

  /** An ordered collection in which no identifier occurs twice. */
  type IdArray = s: seq<Item> | DistinctIds(s) witness []

  /** `a` is obtained from `b` by deleting some elements, keeping the order of the rest. */
  predicate Subseq(a: seq<Item>, b: seq<Item>) {
    if a == [] then true
    else if b == [] then false
    else (a[0] == b[0] && Subseq(a[1..], b[1..])) || Subseq(a, b[1..])
  }

  lemma IdsCons(x: Item, s: seq<Item>)
    ensures Ids([x] + s) == {x.id} + Ids(s)
  {
    var t := [x] + s;
    forall id | id in Ids(t) ensures id in {x.id} + Ids(s) {
      var i :| 0 <= i < |t| && t[i].id == id;
      if i > 0 { assert s[i - 1].id == id; }
    }
    forall id | id in Ids(s) ensures id in Ids(t) {
      var i :| 0 <= i < |s| && s[i].id == id;
      assert t[i + 1].id == id;
    }
    assert t[0].id == x.id;
  }

  /** Splitting off the head of a keyed collection: the head's identifier is not in the tail. */
  lemma HeadNotInTail(s: IdArray)
    requires s != []
    ensures DistinctIds(s[1..])
    ensures s[0].id !in Ids(s[1..])
    ensures Ids(s) == {s[0].id} + Ids(s[1..])
  {
  }

  /** Putting an item whose identifier is new in front of a keyed collection keeps it keyed. */
  lemma ConsDistinct(x: Item, s: IdArray)
    requires x.id !in Ids(s)
    ensures DistinctIds([x] + s)
  {
  }

  /**
   * IdentifiedArray.remove: deletes the element whose identifier is `id`, if any;
   * the remaining elements keep their order.
   */
  function Remove(s: IdArray, id: int): (r: IdArray)
    ensures id !in Ids(s) ==> r == s
    ensures id in Ids(s) ==> exists k :: 0 <= k < |s| && s[k].id == id && r == s[..k] + s[k + 1..]
    ensures Ids(r) == Ids(s) - {id}
  {
    if s == [] then []
    else
      HeadNotInTail(s);
      if s[0].id == id then
        RemoveHead(s, id);
        s[1..]
      else
        var rest := Remove(s[1..], id);
        RemoveCons(s, id, rest);
        [s[0]] + rest
  }

  /** The step of Remove that drops the head. */
  lemma RemoveHead(s: IdArray, id: int)
    requires s != [] && s[0].id == id
    ensures id in Ids(s) && s[0].id == id && s[1..] == s[..0] + s[0 + 1..]
    ensures Ids(s[1..]) == Ids(s) - {id}
  {
  }

  /** The step of Remove that keeps the head: what holds of the tail holds of the whole. */
  lemma RemoveCons(s: IdArray, id: int, rest: IdArray)
    requires s != [] && s[0].id != id
    requires id !in Ids(s[1..]) ==> rest == s[1..]
    requires id in Ids(s[1..]) ==> exists k :: 0 <= k < |s| - 1 && s[k + 1].id == id && rest == s[1..][..k] + s[k + 2..]
    requires Ids(rest) == Ids(s[1..]) - {id}
    ensures DistinctIds([s[0]] + rest)
    ensures id !in Ids(s) ==> [s[0]] + rest == s
    ensures id in Ids(s) ==> exists k :: 0 <= k < |s| && s[k].id == id && [s[0]] + rest == s[..k] + s[k + 1..]
    ensures Ids([s[0]] + rest) == Ids(s) - {id}
  {
    HeadNotInTail(s);
    ConsDistinct(s[0], rest);
    IdsCons(s[0], rest);
    if id in Ids(s) {
      var k :| 0 <= k < |s| - 1 && s[k + 1].id == id && rest == s[1..][..k] + s[k + 2..];
      assert [s[0]] + rest == s[..k + 1] + s[k + 2..];
    }
  }

  /**
   * IdentifiedArray.append: adds `x` at the end unless an element with its identifier
   * is already present, in which case nothing changes.
   */
  function Append(s: IdArray, x: Item): (r: IdArray)
    ensures x.id in Ids(s) ==> r == s
    ensures x.id !in Ids(s) ==> r == s + [x]
    ensures Ids(r) == Ids(s) + {x.id}
  {
    if x.id in Ids(s) then s
    else
      var r := s + [x];
      assert DistinctIds(r) by {
        forall i, j | 0 <= i < j < |r| ensures r[i].id != r[j].id {
          if j == |s| { assert s[i].id in Ids(s); }
        }
      }
      assert Ids(r) == Ids(s) + {x.id} by {
        assert r[|s|].id == x.id;
        forall id | id in Ids(r) ensures id in Ids(s) + {x.id} {
          var i :| 0 <= i < |r| && r[i].id == id;
          if i < |s| { assert s[i].id == id; }
        }
        forall id | id in Ids(s) ensures id in Ids(r) {
          var i :| 0 <= i < |s| && s[i].id == id;
          assert r[i].id == id;
        }
      }
      r
  }

  /** Removing what was just appended gives back the collection as it was. */
  lemma {:induction false} RemoveAppended(s: IdArray, x: Item)
    requires x.id !in Ids(s)
    ensures Remove(Append(s, x), x.id) == s
  {
  }

  /** Every element of a subsequence of `b` is an element of `b`. */
  lemma {:induction false} SubseqElements(a: seq<Item>, b: seq<Item>)
    requires Subseq(a, b)
    ensures forall x :: x in a ==> x in b
  {
    if a != [] && b != [] {
      if a[0] == b[0] && Subseq(a[1..], b[1..]) {
        SubseqElements(a[1..], b[1..]);
        forall x | x in a ensures x in b {
          if x != a[0] { assert x in a[1..]; }
        }
      } else {
        SubseqElements(a, b[1..]);
      }
    }
  }

  /**
   * Within a keyed collection, a subsequence is determined by its elements:
   * two subsequences of `s` holding the same items are equal, order included.
   */
  lemma {:induction false} SubseqDeterminedByElements(s: IdArray, a: seq<Item>, b: seq<Item>)
    requires Subseq(a, s) && Subseq(b, s)
    requires forall x :: x in a <==> x in b
    ensures a == b
  {
    if s == [] {
    } else {
      HeadNotInTail(s);
      var t: IdArray := s[1..];
      var h := s[0];
      assert h !in t;
      if h in a {
        HeadIsFirst(s, a);
        HeadIsFirst(s, b);
        SubseqElements(a[1..], t);
        SubseqElements(b[1..], t);
        forall x ensures x in a[1..] <==> x in b[1..] {
          if x in a[1..] { assert x in a && x != h; assert x in b; assert x != b[0]; }
          if x in b[1..] { assert x in b && x != h; assert x in a; assert x != a[0]; }
        }
        SubseqDeterminedByElements(t, a[1..], b[1..]);
        assert a == [h] + a[1..] && b == [h] + b[1..];
      } else {
        assert a == [] || a[0] != h;
        assert b == [] || b[0] != h;
        SubseqDeterminedByElements(t, a, b);
      }
    }
  }

  /** If the head of a keyed collection is in a subsequence of it, it comes first there. */
  lemma HeadIsFirst(s: IdArray, a: seq<Item>)
    requires s != [] && Subseq(a, s) && s[0] in a
    ensures a[0] == s[0] && Subseq(a[1..], s[1..])
  {
    HeadNotInTail(s);
    if !(a[0] == s[0] && Subseq(a[1..], s[1..])) {
      SubseqElements(a, s[1..]);
    }
  }
}
