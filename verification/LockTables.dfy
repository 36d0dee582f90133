/** The locked names of a run, kept as a bitmap over rule ids. */
module LockTables {
  import opened Names
  import opened Rules
  import opened RuleEngine
  import opened Bitmaps

  class LockTable {
    const hs: seq<HeaderVal>
    const locked: Bitmap
    ghost var names: set<string>

    /** Only exact rules in front of `i` are locked, and their names are the locked names. */
    ghost predicate Valid(i: nat)
      reads this, locked, locked.bits
    {
      && locked.Valid() && locked.size == |hs| && Numbered(hs)
      && (forall m: nat :: locked.Has(m) ==>
            m < i && m < |hs| && !hs[m].rule.wildcard && Lower(hs[m].rule.key) in names)
      && (forall n :: n in names ==> exists m: nat :: locked.Has(m) && m < |hs| && Lower(hs[m].rule.key) == n)
    }

    constructor (hs: seq<HeaderVal>, cnt: nat, width: nat, stride: nat)
      requires Numbered(hs) && cnt == |hs| && 0 < stride <= width
      ensures Valid(0) && this.hs == hs && names == {} && fresh(locked) && fresh(locked.bits)
    {
      hide Bitmap.Has;
      this.hs := hs;
      locked := new Bitmap(width, stride, cnt);
      names := {};
    }

    lemma {:induction false} Later(i: nat)
      requires Valid(i)
      ensures Valid(i + 1)
    {
    }

    /** Looks for a locked exact rule of the same name in front of rule `i`. */
    method IsLockedAt(i: nat) returns (r: bool)
      requires Valid(i) && i < |hs|
      ensures r == IsLocked(hs[i].rule, names)
    {
      hide Bitmap.Has, Bitmap.Valid, Lower;
      if hs[i].rule.wildcard {
        return false;
      }
      var j := 0;
      while j < i
        invariant j <= i
        invariant forall m: nat :: m < j && locked.Has(m) ==> !SameName(hs[m].rule.key, hs[i].rule.key)
      {
        if !hs[j].rule.wildcard && SameName(hs[j].rule.key, hs[i].rule.key) {
          var set_ := locked.IsSet(hs[j].id);
          if set_ {
            return true;
          }
        }
        j := j + 1;
      }
      return false;
    }

    /** Rule `i` has run: its name is locked, unless it is a wildcard or has the -n flag. */
    method RanAt(i: nat)
      requires Valid(i) && i < |hs|
      modifies this, locked.bits
      ensures Valid(i + 1) && names == LockedAfter(hs[i].rule, old(names))
    {
      hide Bitmap.Has, Bitmap.Valid, Lower;
      if !hs[i].rule.wildcard && !hs[i].rule.next {
        locked.Lock(hs[i].id);
        names := names + {Lower(hs[i].rule.key)};
        forall n | n in names ensures exists m: nat :: locked.Has(m) && m < |hs| && Lower(hs[m].rule.key) == n {
          if n == Lower(hs[i].rule.key) {
            assert locked.Has(i);
          } else {
            var m: nat :| old(locked.Has(m)) && m < |hs| && Lower(hs[m].rule.key) == n;
            assert locked.Has(m);
          }
        }
      }
    }
  }
}
