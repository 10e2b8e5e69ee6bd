/**
 * The tray of pieces not yet placed (`pieces` in PuzzleView.swift) and the
 * collection operations the view applies to it: `first(where:)`,
 * `removeAll(where:)` on an id, and `shuffled()` / `shuffle()`.
 */
module Trays {
  import opened Wrappers
  import opened Pieces

  /** The index of the first piece with the given id, as `first(where: { $0.id == id })` finds it. */
  function FirstWithId(tray: seq<Piece>, id: int): (i: Option<nat>)
    ensures i.Some? ==>
      i.value < |tray| && tray[i.value].id == id &&
      forall j :: 0 <= j < i.value ==> tray[j].id != id
    ensures i.None? ==> forall j :: 0 <= j < |tray| ==> tray[j].id != id
  {
    if tray == [] then None
    else if tray[0].id == id then Some(0)
    else
      match FirstWithId(tray[1..], id)
      case None => None
      case Some(k) => Some(k + 1)
  }

  /** s is t with some pieces deleted and the rest kept in their order. */
  predicate Subsequence(s: seq<Piece>, t: seq<Piece>)
    decreases |t|
  {
    if s == [] then true
    else if t == [] then false
    else (s[0] == t[0] && Subsequence(s[1..], t[1..])) || Subsequence(s, t[1..])
  }

  /**
   * `removeAll { $0.id == id }`: every piece with that id goes, every other
   * piece stays.
   */
  function RemoveId(tray: seq<Piece>, id: int): (r: seq<Piece>)
    ensures forall p :: multiset(r)[p] == if p.id == id then 0 else multiset(tray)[p]
  {
    if tray == [] then []
    else
      assert tray == [tray[0]] + tray[1..];
      (if tray[0].id == id then [] else [tray[0]]) + RemoveId(tray[1..], id)
  }

  /** The pieces `removeAll` keeps stay in their order in the tray. */
  lemma {:induction false} RemoveIdKeepsOrder(tray: seq<Piece>, id: int)
    ensures Subsequence(RemoveId(tray, id), tray)
  {
    if tray != [] {
      RemoveIdKeepsOrder(tray[1..], id);
      var rest := RemoveId(tray[1..], id);
      if tray[0].id == id {
        assert RemoveId(tray, id) == [] + rest == rest;
      } else {
        assert RemoveId(tray, id) == [tray[0]] + rest;
        assert ([tray[0]] + rest)[1..] == rest;
      }
    }
  }

  /**
   * A shuffle driven by a sequence of random draws: each draw picks (modulo
   * the number left) the next element among those not yet taken; missing
   * draws pick the first. Whatever the draws, the result is a permutation.
   */
  function Shuffled<T>(s: seq<T>, draws: seq<nat>): (r: seq<T>)
    ensures multiset(r) == multiset(s)
    decreases |s|
  {
    if s == [] then []
    else
      var k := if draws == [] then 0 else draws[0] % |s|;
      var rest := if draws == [] then [] else draws[1..];
      assert s == s[..k] + [s[k]] + s[k + 1..];
      [s[k]] + Shuffled(s[..k] + s[k + 1..], rest)
  }

  /** Each piece occurs at most once, and no two different pieces share an id. */
  ghost predicate UniqueIds(m: multiset<Piece>)
  {
    (forall p :: m[p] <= 1) &&
    (forall p, q :: p in m && q in m && p.id == q.id ==> p == q)
  }

  /** Part of a collection with unique ids has unique ids. */
  lemma UniqueSub(a: multiset<Piece>, b: multiset<Piece>)
    requires a <= b && UniqueIds(b)
    ensures UniqueIds(a)
  {
  }

  /** A sequence of pieces with pairwise distinct ids holds each piece once and no id twice. */
  lemma {:induction false} DistinctIdsUnique(s: seq<Piece>)
    requires DistinctIds(s)
    ensures UniqueIds(multiset(s))
  {
    if s != [] {
      var t := s[1..];
      assert s == [s[0]] + t;
      assert DistinctIds(t) by {
        forall i, j | 0 <= i < j < |t|
          ensures t[i].id != t[j].id
        {
          assert t[i] == s[i + 1] && t[j] == s[j + 1];
        }
      }
      DistinctIdsUnique(t);
      forall q | q in t
        ensures q.id != s[0].id
      {
        var j :| 0 <= j < |t| && t[j] == q;
        assert s[j + 1] == q;
      }
    }
  }

  /**
   * With unique ids, removing the id of a piece that is in the tray takes out
   * exactly that one piece.
   */
  lemma RemoveUnique(tray: seq<Piece>, p: Piece, rest: multiset<Piece>)
    requires p in tray && UniqueIds(multiset(tray) + rest)
    ensures multiset(RemoveId(tray, p.id)) == multiset(tray) - multiset{p}
  {
  }
}
