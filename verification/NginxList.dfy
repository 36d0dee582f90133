/** The chunked list of nginx (`ngx_list_t`): a chain of parts, each a window on a backing array.
    The first part is embedded in the list, so it is never unlinked, only overwritten. */
module NginxList {
  import opened Seqs

  /** The address of one element: a backing array and an index into it. */
  datatype Slot<T> = Slot(arr: array<T>, idx: nat) {
    predicate InBounds() { idx < arr.Length }
  }

  /** One list part: the `nelts` elements of `elts` from `off` on. */
  class Part<T(0)> {
    var elts: array<T>
    var off: nat
    var nelts: nat
    var next: Part?<T>

    constructor (elts: array<T>, off: nat, nelts: nat, next: Part?<T>)
      ensures this.elts == elts && this.off == off && this.nelts == nelts && this.next == next
    {
      this.elts, this.off, this.nelts, this.next := elts, off, nelts, next;
    }

    /** A part on an array of its own. */
    constructor Alloc(nalloc: nat, nelts: nat)
      ensures fresh(elts) && elts.Length == nalloc && off == 0 && this.nelts == nelts && next == null
    {
      elts := new T[nalloc];
      this.off, this.nelts, this.next := 0, nelts, null;
    }
  }

  /** What a part holds, as a value. */
  datatype Window<T> = Window(arr: array<T>, off: nat, n: nat) {
    predicate InBounds() { off + n <= arr.Length }

    /** The addresses of the window's elements. */
    ghost function Slots(): (r: seq<Slot<T>>)
      ensures |r| == n
      ensures forall t :: 0 <= t < n ==> r[t] == Slot(arr, off + t)
    {
      seq(n, t requires 0 <= t < n => Slot(arr, off + t))
    }
  }

  /** The addresses held by a row of windows, in list order. */
  ghost function Flat<T>(ws: seq<Window<T>>): seq<Slot<T>> {
    if ws == [] then [] else ws[0].Slots() + Flat(ws[1..])
  }

  lemma {:induction false} FlatConcat<T>(a: seq<Window<T>>, b: seq<Window<T>>)
    ensures Flat(a + b) == Flat(a) + Flat(b)
  {
    if a == [] {
      assert a + b == b;
    } else {
      assert (a + b)[1..] == a[1..] + b;
      FlatConcat(a[1..], b);
    }
  }

  lemma {:induction false} FlatOne<T>(w: Window<T>)
    ensures Flat([w]) == w.Slots()
  {
    assert [w][1..] == [];
  }

  lemma {:induction false} FlatPrefix<T>(ws: seq<Window<T>>, c: nat)
    requires c < |ws|
    ensures Flat(ws[..c + 1]) == Flat(ws[..c]) + ws[c].Slots()
  {
    assert ws[..c + 1] == ws[..c] + [ws[c]];
    FlatConcat(ws[..c], [ws[c]]);
    FlatOne(ws[c]);
  }

  lemma {:induction false} FlatSplit<T>(ws: seq<Window<T>>, c: nat)
    requires c < |ws|
    ensures Flat(ws) == Flat(ws[..c]) + ws[c].Slots() + Flat(ws[c + 1..])
  {
    calc {
      Flat(ws);
      { assert ws == ws[..c + 1] + ws[c + 1..]; }
      Flat(ws[..c + 1] + ws[c + 1..]);
      { FlatConcat(ws[..c + 1], ws[c + 1..]); }
      Flat(ws[..c + 1]) + Flat(ws[c + 1..]);
      { FlatPrefix(ws, c); }
      Flat(ws[..c]) + ws[c].Slots() + Flat(ws[c + 1..]);
    }
  }

  lemma {:induction false} FlatBounds<T>(ws: seq<Window<T>>, repr: set<object>)
    requires forall i :: 0 <= i < |ws| ==> ws[i].InBounds() && ws[i].arr in repr
    ensures forall k :: 0 <= k < |Flat(ws)| ==> Flat(ws)[k].InBounds() && Flat(ws)[k].arr in repr
  {
    if ws != [] {
      FlatBounds(ws[1..], repr);
    }
  }

  /** Rewriting window `c` into the row `mid`, which lacks element `i` only, removes one address. */
  lemma {:induction false} ReplaceWindow<T>(ws: seq<Window<T>>, c: nat, i: nat, mid: seq<Window<T>>)
    requires c < |ws| && i < ws[c].n && Flat(mid) == RemoveAt(ws[c].Slots(), i)
    ensures |Flat(ws[..c])| + i < |Flat(ws)|
    ensures Flat(ws[..c] + mid + ws[c + 1..]) == RemoveAt(Flat(ws), |Flat(ws[..c])| + i)
  {
    var before, after, s := Flat(ws[..c]), Flat(ws[c + 1..]), ws[c].Slots();
    calc {
      Flat(ws[..c] + mid + ws[c + 1..]);
      { FlatConcat(ws[..c] + mid, ws[c + 1..]); }
      Flat(ws[..c] + mid) + after;
      { FlatConcat(ws[..c], mid); }
      before + RemoveAt(s, i) + after;
      { assert before + (s[..i] + s[i + 1..]) + after
          == (before + s + after)[..|before| + i] + (before + s + after)[|before| + i + 1..]; }
      RemoveAt(before + s + after, |before| + i);
      { FlatSplit(ws, c); }
      RemoveAt(Flat(ws), |before| + i);
    }
    FlatSplit(ws, c);
  }

  /** The shapes `mid` takes: nothing left, trimmed on the left or on the right, or split in two. */
  lemma {:induction false} TrimmedWindow<T>(w: Window<T>, i: nat)
    requires i < w.n
    ensures w.n == 1 ==> Flat<T>([]) == RemoveAt(w.Slots(), i)
    ensures i == 0 ==> Flat([Window(w.arr, w.off + 1, w.n - 1)]) == RemoveAt(w.Slots(), i)
    ensures i == w.n - 1 ==> Flat([Window(w.arr, w.off, w.n - 1)]) == RemoveAt(w.Slots(), i)
    ensures Flat([Window(w.arr, w.off, i), Window(w.arr, w.off + i + 1, w.n - i - 1)]) == RemoveAt(w.Slots(), i)
  {
    var l, r := Window(w.arr, w.off, i), Window(w.arr, w.off + i + 1, w.n - i - 1);
    FlatOne(l);
    FlatOne(r);
    assert [l, r] == [l] + [r];
    FlatConcat([l], [r]);
    assert Flat([l, r]) == RemoveAt(w.Slots(), i);
    FlatOne(Window(w.arr, w.off + 1, w.n - 1));
    FlatOne(Window(w.arr, w.off, w.n - 1));
  }

  /** Every window is in bounds and only a sole window may be empty. */
  ghost predicate Sound<T>(ws: seq<Window<T>>) {
    && (forall i :: 0 <= i < |ws| ==> ws[i].InBounds())
    && (|ws| > 1 ==> forall i :: 0 <= i < |ws| ==> 0 < ws[i].n)
  }

  /** The storage condition of a list: windows in bounds, only a sole window empty, room for the next
      push behind the last window, no address held twice, and the free room held by nobody. */
  ghost predicate Storage<T>(ws: seq<Window<T>>, nalloc: nat) {
    && 0 < |ws|
    && Sound(ws)
    && NoDup(Flat(ws))
    && Room(ws[|ws| - 1], nalloc, Flat(ws))
  }

  ghost predicate Room<T>(w: Window<T>, nalloc: nat, live: seq<Slot<T>>) {
    && 1 <= nalloc && w.n <= nalloc && w.off + nalloc <= w.arr.Length
    && (forall s :: s in live && s.arr == w.arr ==> !(w.off + w.n <= s.idx < w.off + nalloc))
  }

  /** Two windows that use no address in common. */
  ghost predicate DisjointRanges<T>(a: Window<T>, b: Window<T>) {
    a.arr == b.arr && 0 < a.n && 0 < b.n ==> a.off + a.n <= b.off || b.off + b.n <= a.off
  }

  /** No address is held twice exactly when the parts use pairwise disjoint ranges of their arrays. */
  lemma {:induction false} NoDupIsDisjoint<T>(ws: seq<Window<T>>)
    ensures NoDup(Flat(ws)) <==> forall i, j :: 0 <= i < j < |ws| ==> DisjointRanges(ws[i], ws[j])
  {
    if ws != [] {
      var w, rest := ws[0], ws[1..];
      NoDupIsDisjoint(rest);
      hide DisjointRanges;
      NoDupConcat(w.Slots(), Flat(rest));
      WindowNoDup(w);
      FlatApart(w, rest);
      var apart := forall j :: 0 <= j < |rest| ==> DisjointRanges(w, rest[j]);
      var later := forall i, j :: 0 <= i < j < |rest| ==> DisjointRanges(rest[i], rest[j]);
      PairsOf(ws, apart, later);
    }
  }

  lemma {:induction false} PairsOf<T>(ws: seq<Window<T>>, apart: bool, later: bool)
    requires ws != []
    requires apart == forall j :: 0 <= j < |ws[1..]| ==> DisjointRanges(ws[0], ws[1..][j])
    requires later == forall i, j :: 0 <= i < j < |ws[1..]| ==> DisjointRanges(ws[1..][i], ws[1..][j])
    ensures (forall i, j :: 0 <= i < j < |ws| ==> DisjointRanges(ws[i], ws[j])) <==> apart && later
  {
    hide DisjointRanges;
    var rest := ws[1..];
    if apart && later {
      forall i, j | 0 <= i < j < |ws| ensures DisjointRanges(ws[i], ws[j]) {
        assert ws[j] == rest[j - 1];
        if i > 0 {
          assert ws[i] == rest[i - 1];
        }
      }
    }
    if forall i, j :: 0 <= i < j < |ws| ==> DisjointRanges(ws[i], ws[j]) {
      forall j | 0 <= j < |rest| ensures DisjointRanges(ws[0], rest[j]) {
        assert rest[j] == ws[j + 1];
      }
      forall i, j | 0 <= i < j < |rest| ensures DisjointRanges(rest[i], rest[j]) {
        assert rest[i] == ws[i + 1] && rest[j] == ws[j + 1];
      }
    }
  }

  lemma {:induction false} WindowNoDup<T>(w: Window<T>)
    ensures NoDup(w.Slots())
  {
  }

  lemma {:induction false} NoDupConcat<X>(a: seq<X>, b: seq<X>)
    ensures NoDup(a + b) <==> NoDup(a) && NoDup(b) && forall x :: x in a ==> x !in b
  {
    var s := a + b;
    if NoDup(s) {
      forall i, j | 0 <= i < j < |b| ensures b[i] != b[j] {
        assert s[|a| + i] == b[i] && s[|a| + j] == b[j];
      }
      forall x | x in a ensures x !in b {
        var i :| 0 <= i < |a| && a[i] == x;
        forall j | 0 <= j < |b| ensures b[j] != x {
          assert s[i] == x && s[|a| + j] == b[j];
        }
      }
      forall i, j | 0 <= i < j < |a| ensures a[i] != a[j] {
        assert s[i] == a[i] && s[j] == a[j];
      }
    }
    if NoDup(a) && NoDup(b) && forall x :: x in a ==> x !in b {
      forall i, j | 0 <= i < j < |s| ensures s[i] != s[j] {
        assert s[i] == if i < |a| then a[i] else b[i - |a|];
        assert s[j] == if j < |a| then a[j] else b[j - |a|];
        assert i < |a| <= j ==> a[i] in a && b[j - |a|] in b;
      }
    }
  }

  lemma {:induction false} FlatApart<T>(w: Window<T>, ws: seq<Window<T>>)
    ensures (forall s :: s in w.Slots() ==> s !in Flat(ws)) <==> forall j :: 0 <= j < |ws| ==> DisjointRanges(w, ws[j])
  {
    if ws != [] {
      FlatApart(w, ws[1..]);
      TwoApart(w, ws[0]);
      hide DisjointRanges;
      if forall j :: 0 <= j < |ws| ==> DisjointRanges(w, ws[j]) {
        forall j | 0 <= j < |ws[1..]| ensures DisjointRanges(w, ws[1..][j]) {
          assert ws[1..][j] == ws[j + 1];
        }
      }
      if DisjointRanges(w, ws[0]) && forall j :: 0 <= j < |ws[1..]| ==> DisjointRanges(w, ws[1..][j]) {
        forall j | 0 <= j < |ws| ensures DisjointRanges(w, ws[j]) {
          assert j > 0 ==> ws[j] == ws[1..][j - 1];
        }
      }
      assert Flat(ws) == ws[0].Slots() + Flat(ws[1..]);
      Absent(w.Slots(), ws[0].Slots(), Flat(ws[1..]));
    }
  }

  lemma {:induction false} Absent<X>(xs: seq<X>, a: seq<X>, b: seq<X>)
    ensures (forall x :: x in xs ==> x !in a + b)
            <==> (forall x :: x in xs ==> x !in a) && (forall x :: x in xs ==> x !in b)
  {
  }

  lemma {:induction false} TwoApart<T>(a: Window<T>, b: Window<T>)
    ensures (forall s :: s in a.Slots() ==> s !in b.Slots()) <==> DisjointRanges(a, b)
  {
    var xs, ys := a.Slots(), b.Slots();
    if !DisjointRanges(a, b) {
      var i, j := if a.off < b.off then b.off - a.off else 0, if a.off < b.off then 0 else a.off - b.off;
      assert xs[i] == ys[j] && xs[i] in xs && ys[j] in ys;
    } else {
      forall s | s in xs ensures s !in ys {
        var i :| 0 <= i < |xs| && xs[i] == s;
        forall j | 0 <= j < |ys| ensures ys[j] != s {
        }
      }
    }
  }

  lemma {:induction false} FlatSnoc<T>(ws: seq<Window<T>>, w: Window<T>)
    ensures Flat(ws + [w]) == Flat(ws) + w.Slots()
  {
    FlatConcat(ws, [w]);
    FlatOne(w);
  }

  /** A push into the free room of the last window. */
  lemma {:induction false} ExtendLast<T>(ws: seq<Window<T>>, nalloc: nat, w: Window<T>)
    requires Storage(ws, nalloc) && ws[|ws| - 1].n < nalloc
    requires w == ws[|ws| - 1].(n := ws[|ws| - 1].n + 1)
    ensures var ws' := ws[..|ws| - 1] + [w];
            Storage(ws', nalloc) && Flat(ws') == Flat(ws) + [Slot(w.arr, w.off + w.n - 1)]
  {
    var c := |ws| - 1;
    var s := Slot(w.arr, w.off + w.n - 1);
    assert s !in Flat(ws);
    calc {
      Flat(ws[..c] + [w]);
      { FlatSnoc(ws[..c], w); }
      Flat(ws[..c]) + w.Slots();
      { assert w.Slots() == ws[c].Slots() + [s]; }
      Flat(ws[..c]) + ws[c].Slots() + [s];
      { FlatPrefix(ws, c); assert ws[..c + 1] == ws; }
      Flat(ws) + [s];
    }
    NoDupSnoc(Flat(ws), s);
  }

  /** A push into a new last window of the same capacity, on an array nobody holds. */
  lemma {:induction false} AddWindow<T>(ws: seq<Window<T>>, nalloc: nat, a: array<T>)
    requires Storage(ws, nalloc) && ws[|ws| - 1].n == nalloc && a.Length == nalloc
    requires forall i :: 0 <= i < |ws| ==> ws[i].arr != a
    ensures var ws' := ws + [Window(a, 0, 1)];
            Storage(ws', nalloc) && Flat(ws') == Flat(ws) + [Slot(a, 0)]
  {
    var w, live, s := Window(a, 0, 1), Flat(ws), Slot(a, 0);
    assert w.Slots() == [s];
    FlatSnoc(ws, w);
    assert forall x :: x in live ==> x.arr != a by { SlotArrays(ws); }
    NoDupSnoc(live, s);
    assert Room(w, nalloc, live + [s]);
  }

  lemma {:induction false} SlotArrays<T>(ws: seq<Window<T>>)
    ensures forall s :: s in Flat(ws) ==> exists i :: 0 <= i < |ws| && ws[i].arr == s.arr
  {
    if ws != [] {
      SlotArrays(ws[1..]);
      forall s | s in Flat(ws)
        ensures exists i :: 0 <= i < |ws| && ws[i].arr == s.arr
      {
        if s in ws[0].Slots() {
          assert ws[0].arr == s.arr;
        } else {
          var i :| 0 <= i < |ws[1..]| && ws[1..][i].arr == s.arr;
          assert ws[i + 1].arr == s.arr;
        }
      }
    }
  }

  lemma {:induction false} SoundAfter<T>(ws: seq<Window<T>>, c: nat, mid: seq<Window<T>>)
    requires Sound(ws) && c < |ws|
    requires forall m :: 0 <= m < |mid| ==> mid[m].InBounds() && 0 < mid[m].n
    ensures Sound(ws[..c] + mid + ws[c + 1..])
  {
    var ws' := ws[..c] + mid + ws[c + 1..];
    forall j | 0 <= j < |ws'| ensures ws'[j].InBounds() && (|ws'| > 1 ==> 0 < ws'[j].n) {
      if c <= j < c + |mid| {
        assert ws'[j] == mid[j - c];
      } else {
        assert ws'[j] == ws[if j < c then j else j - |mid| + 1];
      }
    }
  }

  /** The room behind the last window after a removal: unchanged, moved up by a left trim, or none. */
  lemma {:induction false} RoomAfter<T>(w: Window<T>, nalloc: nat, live: seq<Slot<T>>, k: nat, w': Window<T>,
                                        nalloc': nat)
    requires Room(w, nalloc, live) && k < |live|
    requires || (0 < w'.n && w'.InBounds() && nalloc' == w'.n)
             || (w' == w && nalloc' == nalloc)
             || (1 < w.n && w' == Window(w.arr, w.off + 1, w.n - 1) && nalloc' == nalloc - 1)
    ensures Room(w', nalloc', RemoveAt(live, k))
  {
    assert forall s :: s in RemoveAt(live, k) ==> s in live;
  }

  /** The row that replaces window `w` when its element `i` is removed and other windows are left. */
  ghost function Remnant<T>(w: Window<T>, i: nat): (mid: seq<Window<T>>)
    requires i < w.n
    ensures Flat(mid) == RemoveAt(w.Slots(), i)
    ensures w.InBounds() ==> forall m :: 0 <= m < |mid| ==> mid[m].InBounds() && 0 < mid[m].n
    ensures mid == [] <==> w.n == 1
  {
    TrimmedWindow(w, i);
    if w.n == 1 then []
    else if i == 0 then [Window(w.arr, w.off + 1, w.n - 1)]
    else if i == w.n - 1 then [Window(w.arr, w.off, w.n - 1)]
    else [Window(w.arr, w.off, i), Window(w.arr, w.off + i + 1, w.n - i - 1)]
  }

  /** The windows after the removal of element `i` of window `c`: a sole element leaves an empty window behind. */
  ghost function RemovedWindows<T>(ws: seq<Window<T>>, c: nat, i: nat): seq<Window<T>>
    requires c < |ws| && i < ws[c].n
  {
    if |ws| == 1 && ws[c].n == 1 then [Window(ws[c].arr, ws[c].off, 0)]
    else ws[..c] + Remnant(ws[c], i) + ws[c + 1..]
  }

  /** The capacity of the last window after that removal. */
  ghost function RemovedRoom<T>(ws: seq<Window<T>>, nalloc: nat, c: nat, i: nat): nat
    requires c < |ws| && i < ws[c].n && 0 < nalloc
  {
    var n, ws' := ws[c].n, RemovedWindows(ws, c, i);
    if c == |ws| - 1 then
      if |ws| == 1 && n == 1 then nalloc
      else if i == 0 && 1 < n then nalloc - 1
      else ws'[|ws'| - 1].n
    else if |ws| == 2 && n == 1 then ws'[|ws'| - 1].n
    else nalloc
  }

  // ---------- the free room ----------

  /** The indices of an array from `from` to before `to`. */
  datatype Reserve<T> = Reserve(arr: array<T>, from: nat, to: int) {
    predicate Has(s: Slot<T>) {
      s.arr == arr && from <= s.idx < to
    }

    function Next(): Slot<T> {
      Slot(arr, from)
    }
  }

  /** The room that the next pushes use before they need a new array. */
  ghost function Behind<T>(w: Window<T>, nalloc: nat): Reserve<T> {
    Reserve(w.arr, w.off + w.n, w.off + nalloc)
  }

  /** The room after a removal: the same, or none; but when the list becomes empty, the address of its only element has
      come back in front of the room. */
  ghost predicate RoomLeft<T>(before: Reserve<T>, live: seq<Slot<T>>, after: Reserve<T>) {
    if |live| == 1 then
      && live[0].arr == before.arr && live[0].idx + 1 == before.from
      && after == Reserve(before.arr, live[0].idx, before.to)
    else
      after == before || after.from == after.to
  }

  lemma {:induction false} RemovalLeavesRoom<T>(ws: seq<Window<T>>, nalloc: nat, c: nat, i: nat)
    requires Storage(ws, nalloc) && c < |ws| && i < ws[c].n
    ensures var ws' := RemovedWindows(ws, c, i);
            0 < |ws'| && RoomLeft(Behind(ws[|ws| - 1], nalloc), Flat(ws),
                Behind(ws'[|ws'| - 1], RemovedRoom(ws, nalloc, c, i)))
  {
    hide NoDup, Flat, RemovedWindows, RemovedRoom;
    LastAfter(ws, nalloc, c, i);
    Sole(ws, c);
  }

  lemma {:induction false} LastAfter<T>(ws: seq<Window<T>>, nalloc: nat, c: nat, i: nat)
    requires Sound(ws) && c < |ws| && i < ws[c].n && 0 < nalloc
    ensures var ws', nalloc' := RemovedWindows(ws, c, i), RemovedRoom(ws, nalloc, c, i);
            0 < |ws'| &&
            var w, w' := ws[|ws| - 1], ws'[|ws'| - 1];
            if |ws| == 1 && w.n == 1 then w' == Window(w.arr, w.off, 0) && nalloc' == nalloc
            else || (w' == w && nalloc' == nalloc)
                 || nalloc' == w'.n
                 || (w' == Window(w.arr, w.off + 1, w.n - 1) && 0 < w.n && nalloc' == nalloc - 1)
  {
    hide Flat;
    var ws' := RemovedWindows(ws, c, i);
    if c < |ws| - 1 {
      assert ws'[|ws'| - 1] == ws[|ws| - 1];
    } else if 1 < |ws| || 1 < ws[c].n {
      LastLeft(ws, c, i);
    }
  }

  lemma {:induction false} Sole<T>(ws: seq<Window<T>>, c: nat)
    requires Sound(ws) && c < |ws| && 0 < ws[c].n
    ensures |Flat(ws)| == 1 <==> |ws| == 1 && ws[c].n == 1
    ensures |ws| == 1 && ws[c].n == 1 ==> Flat(ws) == [Slot(ws[c].arr, ws[c].off)]
  {
    FlatSplit(ws, c);
    if |ws| == 1 {
      assert Flat(ws[..c]) == [] && Flat(ws[c + 1..]) == [];
      assert Flat(ws) == ws[c].Slots();
    } else {
      var d := if c == 0 then 1 else 0;
      FlatSplit(ws, d);
      hide Sound;
      NotAll(ws, c, d);
    }
  }

  lemma {:induction false} NotAll<T>(ws: seq<Window<T>>, c: nat, d: nat)
    requires c < |ws| && d < |ws| && c != d && 0 < ws[c].n && 0 < ws[d].n
    ensures 1 < |Flat(ws)|
  {
    var a, b := if c < d then c else d, if c < d then d else c;
    FlatSplit(ws, a);
    FlatSplit(ws[a + 1..], b - a - 1);
  }

  lemma {:induction false} LastLeft<T>(ws: seq<Window<T>>, c: nat, i: nat)
    requires Sound(ws) && c < |ws| && i < ws[c].n && (1 < |ws| || 1 < ws[c].n)
    ensures var ws' := ws[..c] + Remnant(ws[c], i) + ws[c + 1..];
            0 < |ws'| && 0 < ws'[|ws'| - 1].n
  {
    var mid := Remnant(ws[c], i);
    var ws' := ws[..c] + mid + ws[c + 1..];
    if c + 1 < |ws| {
      assert ws'[|ws'| - 1] == ws[|ws| - 1];
    } else if mid != [] {
      assert ws'[|ws'| - 1] == mid[|mid| - 1];
    } else {
      assert ws'[|ws'| - 1] == ws[c - 1];
    }
  }

  lemma {:induction false} RemovalStep<T>(ws: seq<Window<T>>, nalloc: nat, c: nat, i: nat, mid: seq<Window<T>>,
                                          ws': seq<Window<T>>, nalloc': nat)
    requires Storage(ws, nalloc) && c < |ws| && i < ws[c].n && Flat(mid) == RemoveAt(ws[c].Slots(), i)
    requires forall m :: 0 <= m < |mid| ==> mid[m].InBounds() && 0 < mid[m].n
    requires ws' == ws[..c] + mid + ws[c + 1..] && 0 < |ws'| && 0 < ws'[|ws'| - 1].n
    requires var w, w' := ws[|ws| - 1], ws'[|ws'| - 1];
             || nalloc' == w'.n
             || (w' == w && nalloc' == nalloc)
             || (1 < w.n && w' == Window(w.arr, w.off + 1, w.n - 1) && nalloc' == nalloc - 1)
    ensures |Flat(ws[..c])| + i < |Flat(ws)|
    ensures Storage(ws', nalloc') && Flat(ws') == RemoveAt(Flat(ws), |Flat(ws[..c])| + i)
  {
    hide Flat, Room, NoDup;
    ReplaceWindow(ws, c, i, mid);
    SoundAfter(ws, c, mid);
    NoDupRemoveAt(Flat(ws), |Flat(ws[..c])| + i);
    assert ws'[|ws'| - 1].InBounds();
    RoomAfter(ws[|ws| - 1], nalloc, Flat(ws), |Flat(ws[..c])| + i, ws'[|ws'| - 1], nalloc');
  }

  /** Removal keeps the storage condition and takes exactly one address out. */
  lemma {:induction false} RemovalKeepsStorage<T>(ws: seq<Window<T>>, nalloc: nat, c: nat, i: nat)
    requires Storage(ws, nalloc) && c < |ws| && i < ws[c].n
    ensures |Flat(ws[..c])| + i < |Flat(ws)|
    ensures Storage(RemovedWindows(ws, c, i), RemovedRoom(ws, nalloc, c, i))
    ensures Flat(RemovedWindows(ws, c, i)) == RemoveAt(Flat(ws), |Flat(ws[..c])| + i)
  {
    var w := ws[c];
    var ws', nalloc' := RemovedWindows(ws, c, i), RemovedRoom(ws, nalloc, c, i);
    if |ws| == 1 && w.n == 1 {
      FlatOne(ws'[0]);
      FlatOne(w);
      assert ws == [w];
    } else {
      hide Flat, Room, NoDup;
      LastLeft(ws, c, i);
      RemovalStep(ws, nalloc, c, i, Remnant(w, i), ws', nalloc');
    }
  }

  /** The removal, in the terms of the pointer operations that perform it. */
  lemma {:induction false} RemovedShapes<T>(ws: seq<Window<T>>, nalloc: nat, c: nat, i: nat)
    requires c < |ws| && i < ws[c].n && 0 < nalloc
    ensures var w, ws' := ws[c], RemovedWindows(ws, c, i);
            && (1 < w.n && i == 0 ==> ws' == ws[c := Window(w.arr, w.off + 1, w.n - 1)])
            && (0 < i == w.n - 1 ==> ws' == ws[c := Window(w.arr, w.off, w.n - 1)])
            && (0 < i < w.n - 1 ==>
                ws' == InsertAt(ws[c := Window(w.arr, w.off, i)], c + 1, Window(w.arr, w.off + i + 1, w.n - i - 1)))
            && (w.n == 1 && 1 < |ws| ==> ws' == RemoveAt(ws, c))
            && (w.n == 1 && c == 0 && 1 < |ws| ==> ws' == ws[1..])
            && (w.n == 1 && |ws| == 1 ==> ws' == [Window(w.arr, w.off, 0)])
    ensures 0 < i ==>
              RemovedRoom(ws, nalloc, c, i) ==
                if c < |ws| - 1 then nalloc else if i == ws[c].n - 1 then i else ws[c].n - i - 1
  {
  }

  /** The addresses `slots` lie in arrays of `repr` and hold the elements `xs`. */
  ghost predicate Stored<T>(slots: seq<Slot<T>>, xs: seq<T>, repr: set<object>)
    reads set k | 0 <= k < |slots| :: slots[k].arr
  {
    && |slots| == |xs|
    && (forall k :: 0 <= k < |slots| ==>
          slots[k].idx < slots[k].arr.Length && slots[k].arr in repr && slots[k].arr[slots[k].idx] == xs[k])
  }

  lemma {:induction false} StoredRemoveAt<T>(slots: seq<Slot<T>>, xs: seq<T>, repr: set<object>, k: nat,
                                             repr': set<object>)
    requires Stored(slots, xs, repr) && k < |slots| && repr <= repr'
    ensures Stored(RemoveAt(slots, k), RemoveAt(xs, k), repr')
  {
  }

  lemma {:induction false} StoredSnoc<T>(slots: seq<Slot<T>>, xs: seq<T>, repr: set<object>, s: Slot<T>,
                                         repr': set<object>)
    requires Stored(slots, xs, repr) && repr <= repr' && s.idx < s.arr.Length && s.arr in repr'
    ensures Stored(slots + [s], xs + [s.arr[s.idx]], repr')
  {
  }

  class List<T(0)> {
    const part: Part<T>   // the embedded head
    var last: Part<T>
    var nalloc: nat

    ghost var parts: seq<Part<T>>         // the chain, from the head to `last`
    ghost var windows: seq<Window<T>>     // what each part holds
    ghost var slots: seq<Slot<T>>         // the addresses of the elements, in order
    ghost var elements: seq<T>            // the elements, in order
    ghost var Repr: set<object>

    /** Part `i` is in the chain, holds window `i` and is followed by part `i + 1`, or by nothing. */
    ghost predicate Linked(i: nat)
      requires i < |parts| == |windows|
      reads this`parts, this`windows, this`Repr, parts[i]
    {
      && parts[i] in Repr && parts[i].elts in Repr
      && windows[i] == Window(parts[i].elts, parts[i].off, parts[i].nelts)
      && parts[i].next == (if i + 1 < |parts| then parts[i + 1] else null)
    }

    /** The chain of parts runs from the embedded head to `last`. */
    ghost predicate Chain()
      reads this`last, this`parts, this`windows, this`Repr, parts
    {
      && this in Repr
      && 0 < |parts| == |windows| && parts[0] == part && parts[|parts| - 1] == last
      && NoDup(parts)
      && (forall i {:trigger Linked(i)} :: 0 <= i < |parts| ==> Linked(i))
    }

    ghost predicate Valid()
      reads this, Repr
    {
      && this in Repr
      && (forall p :: p in parts ==> p in Repr)
      && (forall s :: s in slots ==> s.arr in Repr)
      && Chain()
      && Storage(windows, nalloc)
      && slots == Flat(windows)
      && Stored(slots, elements, Repr)
    }

    /** The list position reached by walking to element `i` of part `c`. */
    ghost function Position(c: nat, i: nat): nat
      requires c <= |windows|
      reads this`windows
    {
      |Flat(windows[..c])| + i
    }

    /** A walk that stands at element `i` of part `c`: in front of the end of a part it stands at a live element, and
        from the end of a part it steps to the first element of the next one, which is never empty. */
    lemma {:induction false} Standing(c: nat, i: nat)
      requires Valid() && c < |parts| && i <= parts[c].nelts
      ensures |elements| == |slots| && |windows| == |parts| && NoDup(slots)
      ensures parts[c].off + parts[c].nelts <= parts[c].elts.Length && parts[c] in Repr && parts[c].elts in Repr
      ensures i < parts[c].nelts ==>
                Position(c, i + 1) == Position(c, i) + 1 <= |slots|
                    && slots[Position(c, i)] == Slot(parts[c].elts, parts[c].off + i)
                && elements[Position(c, i)] == parts[c].elts[parts[c].off + i]
      ensures i == parts[c].nelts ==> (parts[c].next == null <==> c + 1 == |parts|)
      ensures i == parts[c].nelts && c + 1 == |parts| ==> Position(c, i) == |slots|
      ensures i == parts[c].nelts && c + 1 < |parts| ==>
                parts[c].next == parts[c + 1] && 0 < parts[c + 1].nelts && Position(c, i) == Position(c + 1, 0)
    {
      assert Linked(c);
      assert windows[c].InBounds();
      if i < parts[c].nelts {
        FlatSplit(windows, c);
        hide Flat;
      } else {
        FlatPrefix(windows, c);
        if c + 1 == |parts| {
          assert windows[..c + 1] == windows;
        } else {
          assert Linked(c + 1);
          assert 0 < windows[c + 1].n;
        }
      }
    }

    /** The list starts at the embedded head, and a list of one part also ends there. */
    lemma {:induction false} Head()
      requires Valid()
      ensures 0 < |parts| == |windows| && parts[0] == part && Position(0, 0) == 0
      ensures part.next == null ==> last == part
    {
      assert Linked(0);
      assert windows[..0] == [];
    }

    lemma {:induction false} Sizes()
      requires Valid()
      ensures |slots| == |elements|
    {
    }

    lemma {:induction false} Holds(k: nat)
      requires Valid() && k < |slots|
      ensures k < |elements| && slots[k].idx < slots[k].arr.Length && slots[k].arr[slots[k].idx] == elements[k]
    {
    }

    /** The room behind the last part. */
    ghost function Free(): Reserve<T>
      reads this`last, this`nalloc, last
    {
      Reserve(last.elts, last.off + last.nelts, last.off + nalloc)
    }

    lemma {:induction false} FreeIs()
      requires Valid()
      ensures 0 < |windows| && Free() == Behind(windows[|windows| - 1], nalloc)
    {
      assert Linked(|parts| - 1);
    }

    /** There is room for the next push while the list is empty. */
    lemma {:induction false} RoomWhileEmpty()
      requires Valid() && slots == []
      ensures last.nelts == 0 < nalloc
    {
      assert Linked(|parts| - 1);
      if 0 < last.nelts {
        FlatSplit(windows, |windows| - 1);
      }
    }

    /** A list changes only objects of its own. */
    lemma {:induction false} Own()
      requires Valid()
      ensures this in Repr && last in Repr
      ensures forall j :: 0 <= j < |parts| ==> parts[j] in Repr
      ensures forall k :: 0 <= k < |slots| ==> slots[k].arr in Repr
    {
      forall j | 0 <= j < |parts| ensures parts[j] in Repr {
        assert Linked(j);
      }
      assert Linked(|parts| - 1);
    }

    constructor (n: nat)
      requires 0 < n
      ensures Valid() && fresh(Repr) && elements == []
    {
      var p := new Part.Alloc(n, 0);
      part, last, nalloc := p, p, n;
      parts, windows, slots, elements, Repr := [p], [Window(p.elts, 0, 0)], [], [], {this, p, p.elts};
      new;
      FlatOne(Window(p.elts, 0, 0));
    }

    lemma {:induction false} Capacity()
      requires Valid()
      ensures 1 <= nalloc && |slots| == |elements|
      ensures last.off + nalloc <= last.elts.Length && last.nelts <= nalloc && last.elts in Repr
    {
      assert Linked(|parts| - 1);
    }

    /** The last part is full: chains a new part behind it, with one element in use. */
    method PushOnNewPart() returns (p: Part<T>)
      requires Valid() && last.nelts == nalloc
      modifies this, last
      ensures Valid() && old(Repr) <= Repr && fresh(Repr - old(Repr))
      ensures old(parts) <= parts && p == last && 0 < p.nelts
      ensures slots == old(slots) + [Slot(p.elts, p.off + p.nelts - 1)]
      ensures fresh(p.elts) && p.off == 0 && p.nelts == 1 && nalloc == old(nalloc)
      ensures |elements| == |slots| && elements[..|old(slots)|] == old(elements)
    {
      hide Storage, Flat, NoDup;
      Capacity();
      ghost var c := |parts| - 1;
      assert Linked(c);
      forall i | 0 <= i <= c ensures windows[i].arr in Repr { assert Linked(i); }
      p := new Part.Alloc(nalloc, 1);
      AddWindow(windows, nalloc, p.elts);
      NoDupSnoc(parts, p);
      last.next := p;
      last, parts, Repr := p, parts + [p], Repr + {p, p.elts};
      StoredSnoc(slots, elements, old(Repr), Slot(p.elts, 0), Repr);
      windows, slots, elements := windows + [Window(p.elts, 0, 1)], slots + [Slot(p.elts, 0)], elements + [p.elts[0]];
      forall i | 0 <= i < |parts| ensures Linked(i) {
        if i <= c { assert old(Linked(i)); }
      }
    }

    method PushOnLastPart()
      requires Valid() && last.nelts < nalloc
      modifies this, last
      ensures Valid() && Repr == old(Repr) && parts == old(parts) && last == old(last) && 0 < last.nelts
      ensures slots == old(slots) + [Slot(last.elts, last.off + last.nelts - 1)]
      ensures last.elts == old(last.elts) && last.off == old(last.off) && last.nelts == old(last.nelts) + 1
              && nalloc == old(nalloc)
      ensures |elements| == |slots| && elements[..|old(slots)|] == old(elements)
    {
      hide Storage, Flat, NoDup;
      Capacity();
      ghost var c := |windows| - 1;
      assert Linked(c);
      ghost var w := windows[c].(n := windows[c].n + 1);
      ExtendLast(windows, nalloc, w);
      StoredSnoc(slots, elements, Repr, Slot(w.arr, w.off + w.n - 1), Repr);
      last.nelts := last.nelts + 1;
      windows, slots, elements := windows[..c] + [w], slots + [Slot(w.arr, w.off + w.n - 1)],
          elements + [w.arr[w.off + w.n - 1]];
      forall i | 0 <= i < |parts| ensures Linked(i) {
        assert old(Linked(i));
      }
    }

    /** `ngx_list_push`: the address of one more element at the end. */
    method Push() returns (s: Slot<T>)
      requires Valid()
      modifies this, last
      ensures Valid() && old(Repr) <= Repr && fresh(Repr - old(Repr))
      ensures slots == old(slots) + [s]
      ensures |elements| == |slots| && elements[..|old(slots)|] == old(elements)
      ensures if old(Free()).from < old(Free()).to then
                s == old(Free()).Next() && Free() == old(Free()).(from := s.idx + 1)
              else
                fresh(s.arr) && s.arr == Free().arr && s.idx < Free().from
    {
      LastPart(|parts| - 1);
      if last.nelts == nalloc {
        var p := PushOnNewPart();
      } else {
        PushOnLastPart();
      }
      s := Slot(last.elts, last.off + last.nelts - 1);
    }

    lemma {:induction false} SlotsApart(k: nat)
      requires Valid() && k < |slots|
      ensures forall j :: 0 <= j < |slots| && j != k ==> slots[j] != slots[k]
    {
    }

    /** Writes at an address: element `k` changes, or none if the address is not in the list any more. */
    method Store(ghost k: nat, s: Slot<T>, x: T)
      requires Valid() && s.InBounds() && if k < |slots| then slots[k] == s else s !in slots
      modifies this`elements, s.arr
      ensures Valid() && |old(elements)| == |slots|
      ensures elements == if k < |slots| then old(elements)[k := x] else old(elements)
    {
      hide Storage, Flat;
      if k < |slots| {
        SlotsApart(k);
      }
      s.arr[s.idx] := x;
      if k < |slots| {
        elements := elements[k := x];
      }
    }

    /** The addresses of the elements lie in arrays of the list. */
    lemma {:induction false} Bounds()
      requires Valid()
      ensures |slots| == |elements| && forall k :: 0 <= k < |slots| ==> slots[k].arr in Repr && slots[k].InBounds()
    {
    }

    lemma {:induction false} LastPart(c: nat)
      requires Chain() && c < |parts|
      ensures Linked(c) && Linked(|parts| - 1)
      ensures parts[c] == last <==> c == |parts| - 1
      ensures forall j :: 0 <= j < |parts| && j != c ==> parts[j] != parts[c]
    {
    }

    /** Element 0 leaves its part: the window starts one further on. */
    method Advance(cur: Part<T>, ghost c: nat)
      requires Chain() && c < |parts| && parts[c] == cur && 0 < cur.nelts
      modifies this`windows, cur
      ensures Chain() && cur.next == old(cur.next)
      ensures cur.elts == old(cur.elts) && cur.off == old(cur.off) + 1 && cur.nelts == old(cur.nelts) - 1
      ensures windows == old(windows)[c := Window(cur.elts, cur.off, cur.nelts)]
    {
      hide NoDup;
      LastPart(c);
      cur.off := cur.off + 1;
      cur.nelts := cur.nelts - 1;
      windows := windows[c := Window(cur.elts, cur.off, cur.nelts)];
      forall j | 0 <= j < |parts| ensures Linked(j) {
        assert old(Linked(j));
      }
    }

    /** The last element leaves its part: the window ends one earlier. */
    method TrimRight(cur: Part<T>, ghost c: nat)
      requires Chain() && c < |parts| && parts[c] == cur && 1 < cur.nelts
      modifies this`windows, this`nalloc, cur
      ensures Chain() && nalloc == if cur == last then old(cur.nelts) - 1 else old(nalloc)
      ensures windows == old(windows)[c := Window(old(cur.elts), old(cur.off), old(cur.nelts) - 1)]
    {
      hide NoDup;
      LastPart(c);
      cur.nelts := cur.nelts - 1;
      if cur == last {
        nalloc := cur.nelts;
      }
      windows := windows[c := Window(cur.elts, cur.off, cur.nelts)];
      forall j | 0 <= j < |parts| ensures Linked(j) {
        assert old(Linked(j));
      }
    }

    /** An element with neighbours on both sides: a new part takes the elements behind it, on the same array. */
    method Split(cur: Part<T>, i: nat, ghost c: nat)
      requires Chain() && c < |parts| && parts[c] == cur && 0 < i < cur.nelts - 1
      modifies this`windows, this`nalloc, this`last, this`parts, this`Repr, cur
      ensures Chain() && old(Repr) <= Repr && fresh(Repr - old(Repr))
      ensures nalloc == if cur == old(last) then old(cur.nelts) - i - 1 else old(nalloc)
      ensures windows == InsertAt(old(windows)[c := Window(old(cur.elts), old(cur.off), i)], c + 1,
                                  Window(old(cur.elts), old(cur.off) + i + 1, old(cur.nelts) - i - 1))
    {
      hide NoDup;
      LastPart(c);
      var p := new Part(cur.elts, cur.off + i + 1, cur.nelts - i - 1, cur.next);
      NoDupInsertAt(parts, c + 1, p);
      cur.nelts := i;
      cur.next := p;
      if cur == last {
        last := p;
        nalloc := p.nelts;
      }
      parts, Repr := InsertAt(parts, c + 1, p), Repr + {p};
      windows := InsertAt(windows[c := Window(cur.elts, cur.off, i)], c + 1, Window(p.elts, p.off, p.nelts));
      forall j | 0 <= j < |parts| ensures Linked(j) {
        hide InsertAt;
        if j <= c {
          assert old(Linked(j));
        } else if j > c + 1 {
          assert old(Linked(j - 1));
        }
      }
    }

    /** Walks the chain to the part in front of `cur`; the walk never runs off the end. */
    method Predecessor(cur: Part<T>, ghost c: nat) returns (prev: Part<T>)
      requires Chain() && 0 < c < |parts| && parts[c] == cur
      ensures prev == parts[c - 1]
    {
      prev := part;
      ghost var k := 0;
      assert Linked(0);
      while prev.next != cur
        invariant 0 <= k < c && prev == parts[k]
        invariant Linked(k)
        decreases c - k
      {
        prev := prev.next;
        k := k + 1;
        assert Linked(k);
      }
      LastPart(c);
    }

    /** A part behind the head, now empty, leaves the chain. */
    method Unlink(cur: Part<T>, ghost c: nat)
      requires Chain() && 0 < c < |parts| && parts[c] == cur
      modifies this`windows, this`nalloc, this`last, this`parts, parts
      ensures Chain() && windows == RemoveAt(old(windows), c)
      ensures nalloc == if cur == old(last) then windows[c - 1].n else old(nalloc)
    {
      LastPart(c);
      LastPart(c - 1);
      var prev := Predecessor(cur, c);
      if cur == last {
        last := prev;
        prev.next := null;
        nalloc := prev.nelts;
      } else {
        prev.next := cur.next;
      }
      NoDupRemoveAt(parts, c);
      parts, windows := RemoveAt(parts, c), RemoveAt(windows, c);
      forall j | 0 <= j < |parts| ensures Linked(j) {
        assert old(Linked(if j < c then j else j + 1));
      }
    }

    /** The last element of the list leaves: the head takes its old start back and is empty. */
    method Reset(cur: Part<T>)
      requires Chain() && |parts| == 1 && part == cur && cur.nelts == 0 && 0 < cur.off
      modifies this`windows, cur
      ensures Chain() && windows == [Window(old(cur.elts), old(cur.off) - 1, 0)]
    {
      LastPart(0);
      cur.off := cur.off - 1;
      windows := [Window(cur.elts, cur.off, 0)];
      assert Linked(0);
    }

    /** The head, now empty, cannot leave the chain: its successor is copied over it. */
    method CopyOverHead(cur: Part<T>)
      requires Chain() && 1 < |parts| && part == cur
      modifies this`windows, this`nalloc, this`last, this`parts, part
      ensures Chain() && windows == old(windows)[1..]
      ensures nalloc == if |old(windows)| == 2 then windows[0].n else old(nalloc)
    {
      LastPart(0);
      LastPart(1);
      var next := cur.next;
      part.elts, part.off, part.nelts, part.next := next.elts, next.off, next.nelts, next.next;
      if last == next {
        last := part;
        nalloc := part.nelts;
      }
      NoDupRemoveAt(parts, 1);
      parts, windows := RemoveAt(parts, 1), windows[1..];
      forall j | 0 <= j < |parts| ensures Linked(j) {
        assert old(Linked(j + 1));
      }
    }

    /** Element 0 of a part. An emptied part is unlinked, or overwritten if it is the head, or reset if it is sole. */
    method RemoveFirst(cur: Part<T>, ghost c: nat)
      requires Chain() && c < |parts| && parts[c] == cur && 0 < cur.nelts == windows[c].n && 0 < nalloc
      requires cur == last && 1 < cur.nelts ==> 1 < nalloc
      modifies this`windows, this`nalloc, this`last, this`parts, parts
      ensures Chain() && windows == RemovedWindows(old(windows), c, 0)
      ensures nalloc == RemovedRoom(old(windows), old(nalloc), c, 0)
    {
      hide NoDup, Remnant, RemovedWindows, Linked;
      LastPart(c);
      RemovedShapes(windows, nalloc, c, 0);
      Advance(cur, c);
      if cur == last {
        if cur.nelts == 0 {
          if part == cur {
            Reset(cur);
          } else {
            Unlink(cur, c);
          }
        } else {
          nalloc := nalloc - 1;
        }
      } else if cur.nelts == 0 {
        if part == cur {
          CopyOverHead(cur);
        } else {
          Unlink(cur, c);
        }
      }
    }

    /** The pointer work of a removal. */
    method Detach(cur: Part<T>, i: nat, ghost c: nat)
      requires Chain() && c < |parts| && parts[c] == cur && i < cur.nelts == windows[c].n && 0 < nalloc
      requires cur == last && 1 < cur.nelts ==> 1 < nalloc
      modifies this`windows, this`nalloc, this`last, this`parts, this`Repr, parts
      ensures Chain() && old(Repr) <= Repr && fresh(Repr - old(Repr))
      ensures windows == RemovedWindows(old(windows), c, i)
      ensures nalloc == RemovedRoom(old(windows), old(nalloc), c, i)
    {
      hide NoDup, Remnant, RemovedWindows, RemovedRoom;
      LastPart(c);
      RemovedShapes(windows, nalloc, c, i);
      if i == 0 {
        RemoveFirst(cur, c);
      } else if i == cur.nelts - 1 {
        TrimRight(cur, c);
      } else {
        Split(cur, i, c);
      }
    }

    lemma {:induction false} PartsOwned()
      requires Chain()
      ensures forall p :: p in parts ==> p in Repr
    {
      forall p | p in parts ensures p in Repr {
        var i :| 0 <= i < |parts| && parts[i] == p;
        assert Linked(i);
      }
    }

    lemma {:induction false} RoomAbove(c: nat)
      requires Valid() && c < |parts|
      ensures 0 < nalloc && (parts[c] == last ==> parts[c].nelts <= nalloc)
    {
      assert Linked(c);
    }

    /** Removes element `i` of part `cur`: its address leaves the sequence, every other element keeps its
        address, and no stored element changes. */
    method Remove(cur: Part<T>, i: nat, ghost c: nat)
      requires Valid() && c < |parts| && parts[c] == cur && i < cur.nelts
      modifies this, parts
      ensures Valid() && old(Repr) <= Repr && fresh(Repr - old(Repr))
      ensures old(Position(c, i)) < |old(slots)|
      ensures slots == RemoveAt(old(slots), old(Position(c, i)))
      ensures elements == RemoveAt(old(elements), old(Position(c, i)))
      ensures RoomLeft(old(Free()), old(slots), Free())
    {
      hide Storage, Flat, NoDup, RemovedWindows, RemovedRoom, RoomLeft;
      FreeIs();
      LastPart(c);
      RoomAbove(c);
      RemovalKeepsStorage(windows, nalloc, c, i);
      RemovalLeavesRoom(windows, nalloc, c, i);
      ghost var k := Position(c, i);
      Detach(cur, i, c);
      PartsOwned();
      StoredRemoveAt(slots, elements, old(Repr), k, Repr);
      slots, elements := RemoveAt(slots, k), RemoveAt(elements, k);
      FreeIs();
    }

    /** Reads the whole list. */
    method ToSeq() returns (xs: seq<T>)
      requires Valid()
      ensures xs == elements
    {
      hide *;
      xs := [];
      var p, i := part, 0;
      ghost var c := 0;
      Head();
      Standing(0, 0);
      while true
        invariant c < |parts| == |windows| && p == parts[c] && i <= p.nelts
        invariant |xs| == Position(c, i) <= |elements| == |slots| && xs == elements[..|xs|]
        decreases |elements| - |xs|
      {
        Standing(c, i);
        if i >= p.nelts {
          if p.next == null {
            break;
          }
          p, i, c := p.next, 0, c + 1;
          Standing(c, i);
        }
        xs := xs + [p.elts[p.off + i]];
        i := i + 1;
      }
    }
  }
}
