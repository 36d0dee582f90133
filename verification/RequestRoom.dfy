/** What an edit of the request header list does to the room for further headers, and to the addresses that are in
    use. */
module RequestRoom {
  import opened Seqs
  import opened NginxList
  import opened HeaderEdit
  import opened Rules
  import opened RequestEdit
  import opened FieldIndex
  import opened RequestState

  // ---------- while the scan runs ----------

  /** The room after deletions: as before, or none; but when the list has become empty, the address of its last header
      has come back, perhaps in front of the room of before. */
  ghost predicate RoomKept(l0: seq<Slot<Entry>>, before: Reserve<Entry>, l: seq<Slot<Entry>>, after: Reserve<Entry>) {
    if l != [] || l0 == [] then
      (l == l0 ==> after == before) && (after == before || after.from == after.to)
    else
      && after.Next() == l0[|l0| - 1]
      && (after.to == after.from + 1
          || (after.arr == before.arr && after.from + 1 == before.from && after.to == before.to))
  }

  /** While an empty value deletes every header from the front, those left are the last ones. */
  ghost predicate FromFront(v: string, t: Target, s0: seq<Entry>, l0: seq<Slot<Entry>>, s: seq<Entry>,
                            l: seq<Slot<Entry>>) {
    v == "" && (forall j :: 0 <= j < |s0| ==> t.Covers(s0[j].key)) ==>
      && |s| == |l| <= |s0| == |l0|
      && l == l0[|l0| - |l|..] && Keys(s) == Keys(s0)[|s0| - |s|..]
  }

  ghost predicate RoomProgress(v: string, t: Target, s0: seq<Entry>, l0: seq<Slot<Entry>>, before: Reserve<Entry>,
                               s: seq<Entry>, l: seq<Slot<Entry>>, after: Reserve<Entry>)
  {
    FromFront(v, t, s0, l0, s, l) && RoomKept(l0, before, l, after) && |l| <= |l0|
  }

  lemma {:induction false} RoomStarts(v: string, t: Target, s: seq<Entry>, l: seq<Slot<Entry>>, room: Reserve<Entry>)
    requires |s| == |l|
    ensures RoomProgress(v, t, s, l, room, s, l, room)
  {
  }

  lemma {:induction false} RoomPlaceStep(v: string, t: Target, s0: seq<Entry>, l0: seq<Slot<Entry>>,
                                         before: Reserve<Entry>, s: seq<Entry>, l: seq<Slot<Entry>>,
                                         after: Reserve<Entry>, s': seq<Entry>)
    requires RoomProgress(v, t, s0, l0, before, s, l, after) && v != ""
    ensures RoomProgress(v, t, s0, l0, before, s', l, after)
  {
  }

  lemma {:induction false} FrontStep(op: Opcode, v: string, t: Target, s0: seq<Entry>, l0: seq<Slot<Entry>>,
                                     s: seq<Entry>, l: seq<Slot<Entry>>, k: nat, matched: Option<Slot<Entry>>,
                                     output: Option<Slot<Entry>>, out: Option<Slot<Entry>>)
    requires Progress(op, v, t, s0, l0, s, l, k, matched, output, out) && FromFront(v, t, s0, l0, s, l)
    requires k < |s| && t.Covers(s[k].key)
    ensures FromFront(v, t, s0, l0, RemoveAt(s, k), RemoveAt(l, k))
  {
    hide SameOutcome, First;
    KeysRemoveAt(s, k);
    if v == "" && forall j :: 0 <= j < |s0| ==> t.Covers(s0[j].key) {
      assert forall j :: 0 <= j < |s0| ==> Keys(s0)[j] == s0[j].key;
      assert Keys(s)[0] == Keys(s0)[|s0| - |s|];
      assert k == 0;
    }
  }

  /** The header with which the list becomes empty was its last one. */
  lemma {:induction false} LastToGo(op: Opcode, v: string, t: Target, s0: seq<Entry>, l0: seq<Slot<Entry>>,
                                    s: seq<Entry>, l: seq<Slot<Entry>>, k: nat, matched: Option<Slot<Entry>>,
                                    output: Option<Slot<Entry>>, out: Option<Slot<Entry>>)
    requires Progress(op, v, t, s0, l0, s, l, k, matched, output, out) && FromFront(v, t, s0, l0, s, l)
    requires k < |s| == 1 && t.Covers(s[k].key) && op != Add && (v == "" || (matched.Some? && matched.value != l[k]))
    ensures l0 != [] && l[0] == l0[|l0| - 1]
  {
    hide Survivors;
    FirstAtMost(t, Keys(s), k);
    if v == "" {
      KeptCleared(op, t, Keys(s), l);
      KeptCleared(op, t, Keys(s0), l0);
      assert Keys(s)[1..] == [];
      assert Drop(t, Keys(s), l) == [];
      hide Kept;
      AllCovered(t, s0, l0);
      assert l == l0[|l0| - 1..];
    }
  }

  lemma {:induction false} AllCovered(t: Target, s: seq<Entry>, l: seq<Slot<Entry>>)
    requires |s| == |l| && Drop(t, Keys(s), l) == []
    ensures forall j :: 0 <= j < |s| ==> t.Covers(s[j].key)
  {
    if s != [] {
      AllCovered(t, s[1..], l[1..]);
      assert forall j :: 0 < j < |s| ==> s[j] == s[1..][j - 1];
    }
  }

  lemma {:induction false} RoomDeleteStep(op: Opcode, v: string, t: Target, s0: seq<Entry>, l0: seq<Slot<Entry>>,
                                          before: Reserve<Entry>, s: seq<Entry>, l: seq<Slot<Entry>>, k: nat,
                                          mid: Reserve<Entry>, matched: Option<Slot<Entry>>,
                                          output: Option<Slot<Entry>>, out: Option<Slot<Entry>>, after: Reserve<Entry>)
    requires Progress(op, v, t, s0, l0, s, l, k, matched, output, out) && RoomProgress(v, t, s0, l0, before, s, l, mid)
    requires k < |s| && t.Covers(s[k].key) && op != Add && (v == "" || (matched.Some? && matched.value != l[k]))
    requires RoomLeft(mid, l, after)
    ensures RoomProgress(v, t, s0, l0, before, RemoveAt(s, k), RemoveAt(l, k), after)
  {
    hide SameOutcome, First, FromFront, Unmatched, Matched;
    FrontStep(op, v, t, s0, l0, s, l, k, matched, output, out);
    if |l| == 1 {
      LastToGo(op, v, t, s0, l0, s, l, k, matched, output, out);
    }
    assert RemoveAt(l, k) != l0;
  }

  // ---------- whole edits ----------

  /** A header was created in the room, or on a new array; or headers were deleted. */
  ghost predicate RoomEdited(rule: Rule, v: string, s0: seq<Entry>, l0: seq<Slot<Entry>>, before: Reserve<Entry>,
                             l: seq<Slot<Entry>>, after: Reserve<Entry>)
  {
    if Creates(rule.opcode, v, rule.RequestTarget(v), Keys(s0)) then
      l != [] && RoomUsed(before, l[|l| - 1], after)
    else
      RoomKept(l0, before, l, after)
  }

  ghost predicate RoomUsed(before: Reserve<Entry>, slot: Slot<Entry>, after: Reserve<Entry>) {
    if before.from < before.to then slot == before.Next() && after == before.(from := slot.idx + 1)
    else slot.arr == after.arr && slot.idx < after.from
  }

  // ---------- the addresses in use ----------

  /** The addresses `slots` in terms of the numbers `ids`. */
  ghost predicate Mapped(addr: seq<Slot<Entry>>, ids: seq<nat>, slots: seq<Slot<Entry>>) {
    |ids| == |slots| && forall k :: 0 <= k < |ids| ==> ids[k] < |addr| && addr[ids[k]] == slots[k]
  }

  ghost predicate SameAddress(addr: seq<Slot<Entry>>, id: Option<nat>, slot: Option<Slot<Entry>>) {
    if id == None then slot == None else id.value < |addr| && slot == Some(addr[id.value])
  }

  ghost predicate SameFields(addr: seq<Slot<Entry>>, ids: map<string, Option<nat>>,
                             fields: map<string, Option<Slot<Entry>>>) {
    ids.Keys == fields.Keys && forall b :: b in fields ==> SameAddress(addr, ids[b], fields[b])
  }

  /** The addresses `addr` that have come into use belong to the list, and only the spare one is in its room: it comes
      next. */
  ghost predicate InUse(addr: seq<Slot<Entry>>, spare: Option<nat>, room: Reserve<Entry>, repr: set<object>) {
    && NoDup(addr)
    && (forall j :: 0 <= j < |addr| ==> addr[j].arr in repr && addr[j].idx < addr[j].arr.Length)
    && (forall j :: 0 <= j < |addr| ==> room.Has(addr[j]) ==> spare == Some(j))
    && (spare.Some? ==> spare.value < |addr| && addr[spare.value] == room.Next())
  }

  /** The request `st` describes the headers at `slots`. */
  ghost predicate Tracks(addr: seq<Slot<Entry>>, st: ReqState, slots: seq<Slot<Entry>>, room: Reserve<Entry>,
                         repr: set<object>) {
    Addressed(st) && |addr| == st.used && Mapped(addr, st.ids, slots) && InUse(addr, st.spare, room, repr)
  }

  lemma {:induction false} MappedConcat(addr: seq<Slot<Entry>>, ids: seq<nat>, slots: seq<Slot<Entry>>, ids': seq<nat>,
                                        slots': seq<Slot<Entry>>)
    requires Mapped(addr, ids, slots) && Mapped(addr, ids', slots')
    ensures Mapped(addr, ids + ids', slots + slots')
  {
  }

  lemma {:induction false} MappedSlice(addr: seq<Slot<Entry>>, ids: seq<nat>, slots: seq<Slot<Entry>>, k: nat)
    requires Mapped(addr, ids, slots) && k <= |ids|
    ensures |ids| == |slots| && Mapped(addr, ids[..k], slots[..k]) && Mapped(addr, ids[k..], slots[k..])
  {
  }

  lemma {:induction false} MappedKept(addr: seq<Slot<Entry>>, op: Opcode, v: string, t: Target, keys: seq<string>,
                                      ids: seq<nat>, slots: seq<Slot<Entry>>)
    requires Mapped(addr, ids, slots) && |keys| == |ids| == |slots|
    ensures Mapped(addr, Kept(op, v, t, keys, ids), Kept(op, v, t, keys, slots))
  {
    hide Mapped, Drop, First;
    var f := First(t, keys);
    MappedDrop(addr, t, keys, ids, slots);
    if f < |keys| && f + 1 <= |ids| {
      MappedSlice(addr, ids, slots, f + 1);
      MappedDrop(addr, t, keys[f + 1..], ids[f + 1..], slots[f + 1..]);
      MappedConcat(addr, ids[..f + 1], slots[..f + 1], Drop(t, keys[f + 1..], ids[f + 1..]),
          Drop(t, keys[f + 1..], slots[f + 1..]));
    }
  }

  lemma {:induction false} MappedDrop(addr: seq<Slot<Entry>>, t: Target, keys: seq<string>, ids: seq<nat>,
                                      slots: seq<Slot<Entry>>)
    requires Mapped(addr, ids, slots) && |keys| == |ids| == |slots|
    ensures Mapped(addr, Drop(t, keys, ids), Drop(t, keys, slots))
  {
    hide Mapped;
    if keys == [] {
      assert ids == [] && slots == [];
    } else {
      MappedSlice(addr, ids, slots, 1);
      MappedDrop(addr, t, keys[1..], ids[1..], slots[1..]);
      assert ids[..1] == [ids[0]] && slots[..1] == [slots[0]];
      var ids', slots' := Drop(t, keys[1..], ids[1..]), Drop(t, keys[1..], slots[1..]);
      MappedConcat(addr, [ids[0]], [slots[0]], ids', slots');
      assert Drop(t, keys, ids) == if t.Covers(keys[0]) then ids' else [ids[0]] + ids';
      assert Drop(t, keys, slots) == if t.Covers(keys[0]) then slots' else [slots[0]] + slots';
    }
  }

  /** The addresses after an edit: a created header may be at a new one. */
  ghost function AddressesAfter(addr: seq<Slot<Entry>>, rule: Rule, v: string, st: ReqState,
                                l: seq<Slot<Entry>>): seq<Slot<Entry>> {
    if Creates(rule.opcode, v, rule.RequestTarget(v), Keys(st.entries)) && st.spare == None
        && l != [] then addr + [l[|l| - 1]] else addr
  }

  lemma {:induction false} CreatedInUse(addr: seq<Slot<Entry>>, spare: Option<nat>, before: Reserve<Entry>,
                                        repr: set<object>, slot: Slot<Entry>, after: Reserve<Entry>, repr': set<object>)
    requires InUse(addr, spare, before, repr) && RoomUsed(before, slot, after) && repr <= repr'
    requires spare.Some? ==> before.from < before.to
    requires slot.arr in repr' && slot.idx < slot.arr.Length
    requires before.from >= before.to ==> slot.arr !in repr
    ensures var addr' := if spare == None then addr + [slot] else addr;
            InUse(addr', None, after, repr') && (spare.Some? ==> spare.value < |addr| && addr[spare.value] == slot)
  {
    if spare == None {
      forall j | 0 <= j < |addr| ensures addr[j] != slot {
        assert before.from < before.to ==> before.Has(slot);
      }
      NoDupSnoc(addr, slot);
    }
    hide NoDup;
  }

  lemma {:induction false} DeletedInUse(addr: seq<Slot<Entry>>, st: ReqState, l0: seq<Slot<Entry>>,
                                        before: Reserve<Entry>, repr: set<object>, kept: seq<nat>, l: seq<Slot<Entry>>,
                                        after: Reserve<Entry>, repr': set<object>)
    requires Tracks(addr, st, l0, before, repr) && RoomKept(l0, before, l, after) && repr <= repr'
    requires Mapped(addr, kept, l) && (l0 == [] ==> l == [])
    ensures InUse(addr, if kept == [] && st.ids != [] then Some(st.ids[|st.ids| - 1]) else st.spare, after, repr')
  {
    if kept == [] && st.ids != [] {
      var last := st.ids[|st.ids| - 1];
      assert addr[last] == after.Next();
      forall j | 0 <= j < |addr| && after.Has(addr[j]) ensures j == last {
        assert !before.Has(addr[j]);
        assert addr[j] == addr[last];
      }
    }
  }

  /** An edit of the list does to the request what it means, and the addresses in use are known again. */
  lemma {:induction false} AppliedTracks(addr: seq<Slot<Entry>>, rule: Rule, v: string, st: ReqState,
                                         l0: seq<Slot<Entry>>, before: Reserve<Entry>, repr: set<object>,
                                         l: seq<Slot<Entry>>, after: Reserve<Entry>, repr': set<object>,
                                         output: Option<Slot<Entry>>, out: Option<Slot<Entry>>)
    requires Tracks(addr, st, l0, before, repr) && repr <= repr' && (l0 == [] ==> before.from < before.to)
    requires Edited(rule, v, st.entries, l0, Applied(rule, v, st).entries, l, output, out)
    requires RoomEdited(rule, v, st.entries, l0, before, l, after)
    requires forall k :: 0 <= k < |l| ==> l[k].arr in repr' && l[k].idx < l[k].arr.Length
    requires before.from >= before.to && |l| > |l0| ==> l[|l| - 1].arr !in repr
    ensures Tracks(AddressesAfter(addr, rule, v, st, l), Applied(rule, v, st), l, after, repr')
    ensures addr <= AddressesAfter(addr, rule, v, st, l)
  {
    hide RoomUsed, RoomKept, InUse, Addressed, Kept, First, Keys, Creates, Survivors;
    var op, t, keys := rule.opcode, rule.RequestTarget(v), Keys(st.entries);
    AppliedSound(rule, v, st);
    TrackedSizes(addr, st, l0, before, repr);
    if Creates(op, v, t, keys) {
      assert RoomUsed(before, l[|l| - 1], after);
      CreatedInUse(addr, st.spare, before, repr, l[|l| - 1], after, repr');
    } else {
      MappedKept(addr, op, v, t, keys, st.ids, l0);
      KeptNothing(op, v, t, keys, l0);
      DeletedInUse(addr, st, l0, before, repr, Kept(op, v, t, keys, st.ids), l, after, repr');
    }
  }

  lemma {:induction false} KeptNothing<X>(op: Opcode, v: string, t: Target, keys: seq<string>, xs: seq<X>)
    requires |keys| == |xs|
    ensures xs == [] ==> Kept(op, v, t, keys, xs) == []
  {
  }

  lemma {:induction false} TrackedSizes(addr: seq<Slot<Entry>>, st: ReqState, l0: seq<Slot<Entry>>,
                                        room: Reserve<Entry>, repr: set<object>)
    requires Tracks(addr, st, l0, room, repr)
    ensures |Keys(st.entries)| == |st.entries| == |st.ids| == |l0|
    ensures st.spare.Some? ==> st.ids == [] && st.spare.value < |addr|
  {
  }

  /** What the edit leaves in the variable that it is given. */
  lemma {:induction false} OutTracks(addr: seq<Slot<Entry>>, rule: Rule, v: string, st: ReqState, l0: seq<Slot<Entry>>,
                                     before: Reserve<Entry>, repr: set<object>, l: seq<Slot<Entry>>,
                                     after: Reserve<Entry>, repr': set<object>, id: Option<nat>,
                                     output: Option<Slot<Entry>>, out: Option<Slot<Entry>>)
    requires Tracks(addr, st, l0, before, repr) && SameAddress(addr, id, output)
    requires Edited(rule, v, st.entries, l0, Applied(rule, v, st).entries, l, output, out)
    requires Tracks(AddressesAfter(addr, rule, v, st, l), Applied(rule, v, st), l, after, repr')
    ensures SameAddress(AddressesAfter(addr, rule, v, st, l), OutId(rule, v, st, id), out)
  {
    hide InUse, Addressed, Kept, Edit;
    TrackedSizes(addr, st, l0, before, repr);
  }
}
