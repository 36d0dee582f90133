/** Sequences: removal and insertion at a position, and absence of duplicates. */
module Seqs {

  ghost function RemoveAt<X>(s: seq<X>, k: nat): (r: seq<X>)
    requires k < |s|
    ensures |r| == |s| - 1
  {
    s[..k] + s[k + 1..]
  }

  ghost function InsertAt<X>(s: seq<X>, k: nat, x: X): (r: seq<X>)
    requires k <= |s|
    ensures |r| == |s| + 1
    ensures forall j :: 0 <= j <= |s| ==> r[j] == if j < k then s[j] else if j == k then x else s[j - 1]
  {
    s[..k] + [x] + s[k..]
  }

  ghost predicate NoDup<X>(s: seq<X>) {
    forall i, j :: 0 <= i < j < |s| ==> s[i] != s[j]
  }

  lemma {:induction false} NoDupSnoc<X>(s: seq<X>, x: X)
    requires NoDup(s) && x !in s
    ensures NoDup(s + [x])
  {
  }

  lemma {:induction false} NoDupInsertAt<X>(s: seq<X>, k: nat, x: X)
    requires NoDup(s) && k <= |s| && x !in s
    ensures NoDup(InsertAt(s, k, x))
  {
  }

  lemma {:induction false} NoDupRemoveAt<X>(s: seq<X>, k: nat)
    requires NoDup(s) && k < |s|
    ensures NoDup(RemoveAt(s, k)) && s[k] !in RemoveAt(s, k)
  {
  }

  /** Removing behind position `f` leaves what is up to `f` and removes from what is behind it. */
  lemma {:induction false} RemoveBehind<X>(xs: seq<X>, f: nat, k: nat)
    requires f < k < |xs|
    ensures RemoveAt(xs, k)[..f + 1] == xs[..f + 1] && RemoveAt(xs, k)[f] == xs[f]
    ensures RemoveAt(xs, k)[f + 1..] == RemoveAt(xs[f + 1..], k - f - 1)
  {
  }

  /** `kept` lists the positions at which `picks` holds. */
  ghost predicate Lists(kept: seq<nat>, picks: seq<bool>) {
    && (forall i, j :: 0 <= i < j < |kept| ==> kept[i] < kept[j])
    && (forall j :: 0 <= j < |kept| ==> kept[j] < |picks| && picks[kept[j]])
    && (forall k: nat :: k < |picks| && picks[k] ==> k in kept)
  }

  lemma {:induction false} ListsSnoc(kept: seq<nat>, picks: seq<bool>, b: bool)
    requires Lists(kept, picks)
    ensures Lists(if b then kept + [|picks|] else kept, picks + [b])
  {
    var kept' := if b then kept + [|picks|] else kept;
    forall k: nat | k < |picks + [b]| && (picks + [b])[k] ensures k in kept' {
      if k == |picks| {
        assert kept'[|kept|] == k;
      }
    }
  }
}
