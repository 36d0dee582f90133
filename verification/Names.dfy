/** Header names and the ASCII case folding they are compared under (`ngx_strncasecmp`, `ngx_strlow`). */
module Names {

  function LowerChar(c: char): char {
    if 'A' <= c <= 'Z' then c - 'A' + 'a' else c
  }

  function Lower(s: string): (r: string)
    ensures |r| == |s|
    ensures forall i :: 0 <= i < |s| ==> r[i] == LowerChar(s[i])
  {
    if s == [] then [] else [LowerChar(s[0])] + Lower(s[1..])
  }

  /** Same length and the same characters up to ASCII case. */
  predicate SameName(a: string, b: string) {
    Lower(a) == Lower(b)
  }

  /** `name` starts with `prefix`, up to ASCII case. */
  predicate HasPrefix(name: string, prefix: string) {
    |prefix| <= |name| && Lower(name[..|prefix|]) == Lower(prefix)
  }

  lemma {:induction false} LowerIdempotent(s: string)
    ensures Lower(Lower(s)) == Lower(s)
  {
    assert forall i :: 0 <= i < |s| ==> Lower(Lower(s))[i] == LowerChar(LowerChar(s[i])) == Lower(s)[i];
  }

  lemma {:induction false} LowerPrefix(s: string, n: nat)
    requires n <= |s|
    ensures Lower(s[..n]) == Lower(s)[..n]
  {
  }

  lemma {:induction false} LowerConcat(a: string, b: string)
    ensures Lower(a + b) == Lower(a) + Lower(b)
  {
    if a == "" {
      assert a + b == b;
    } else {
      assert (a + b)[1..] == a[1..] + b;
      LowerConcat(a[1..], b);
    }
  }

  lemma {:induction false} SamePrefix(a: string, b: string, p: string)
    requires SameName(a, b)
    ensures HasPrefix(a, p) <==> HasPrefix(b, p)
  {
    assert |Lower(a)| == |Lower(b)|;
    if |p| <= |a| {
      LowerPrefix(a, |p|);
      LowerPrefix(b, |p|);
    }
  }

  lemma {:induction false} SameLast(a: string, b: string)
    requires SameName(a, b) && a != ""
    ensures |a| == |b| && LowerChar(a[|a| - 1]) == LowerChar(b[|b| - 1])
  {
    hide Lower;
    assert |Lower(a)| == |Lower(b)| && Lower(a)[|a| - 1] == Lower(b)[|b| - 1];
  }

  // ---------- by character codes ----------

  /** The same character, or the two cases of one ASCII letter. */
  predicate SameLetter(c: char, d: char) {
    || c == d
    || ('A' <= c <= 'Z' && d as int == c as int + 32)
    || ('A' <= d <= 'Z' && c as int == d as int + 32)
  }

  predicate SameLetters(a: string, b: string) {
    |a| == |b| && forall i :: 0 <= i < |a| ==> SameLetter(a[i], b[i])
  }

  /** Lower-casing adds 32 to the code of a capital letter, and changes nothing else. */
  lemma {:induction false} LowerByCode(s: string)
    ensures |Lower(s)| == |s|
    ensures forall i :: 0 <= i < |s| ==>
              && !('A' <= Lower(s)[i] <= 'Z')
              && Lower(s)[i] as int == s[i] as int + if 'A' <= s[i] <= 'Z' then 32 else 0
  {
    forall i | 0 <= i < |s|
      ensures !('A' <= Lower(s)[i] <= 'Z')
      ensures Lower(s)[i] as int == s[i] as int + if 'A' <= s[i] <= 'Z' then 32 else 0
    {
      assert Lower(s)[i] == LowerChar(s[i]);
    }
  }

  /** Two names are the same if they have one length and at each position the same character or the two cases of one
      ASCII letter. */
  lemma {:induction false} SameNameByCode(a: string, b: string)
    ensures SameName(a, b) <==>
              && |a| == |b|
              && forall i :: 0 <= i < |a| ==>
                   || a[i] == b[i]
                   || ('A' <= a[i] <= 'Z' && b[i] as int == a[i] as int + 32)
                   || ('A' <= b[i] <= 'Z' && a[i] as int == b[i] as int + 32)
  {
    LowerByCode(a);
    LowerByCode(b);
    hide Lower;
    var same := |a| == |b| && forall i :: 0 <= i < |a| ==> SameLetter(a[i], b[i]);
    if same {
      assert Lower(a) == Lower(b);
    }
    if SameName(a, b) {
      assert |a| == |Lower(a)| == |Lower(b)| == |b|;
      forall i | 0 <= i < |a| ensures SameLetter(a[i], b[i]) {
        assert Lower(a)[i] == Lower(b)[i];
      }
    }
  }

  lemma {:induction false} NamesByCode(a: string)
    ensures forall b: string :: SameName(a, b) <==> SameLetters(a, b)
  {
    forall b: string ensures SameName(a, b) <==> SameLetters(a, b) {
      SameNameByCode(a, b);
    }
  }

  /** A name starts with a prefix if it is as long and, at each position of the prefix, has the same character or the
      other case of the same ASCII letter. */
  lemma {:induction false} HasPrefixByCode(name: string, prefix: string)
    ensures HasPrefix(name, prefix) <==>
              |prefix| <= |name| && forall i :: 0 <= i < |prefix| ==> SameLetter(name[i], prefix[i])
  {
    if |prefix| <= |name| {
      SameNameByCode(name[..|prefix|], prefix);
    }
  }
}
