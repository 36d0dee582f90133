/** What rules on Content-Type make of a response: the type, its length without parameters, the charset and the
    headers of that name. */
module TypeRules {
  import opened Machine
  import opened Names
  import opened HeaderEdit
  import opened Rules
  import opened AbstractEdit
  import opened ResponseEdit
  import opened ContentTypes
  import opened ResponseState
  import opened EditPositions

  /** Behind position `q` there are spaces up to `p`, and then `charset=` in any case. */
  predicate CharsetBehind(v: string, q: nat, p: nat) {
    && q < p && p + 8 <= |v| && (forall j :: q < j < p ==> v[j] == ' ')
    && forall i :: 0 <= i < 8 ==> SameLetter(v[p + i], "charset="[i])
  }

  /** `inside` is `text` without the double quote at each end that has one. */
  predicate InQuotes(text: string, inside: string) {
    text == (if text != "" && text[0] == '"' then "\"" else "") + inside
            + (if text != "" && text[|text| - 1] == '"' then "\"" else "")
  }

  lemma {:induction false} CharsetBehindIs(v: string, q: nat)
    requires q < |v|
    ensures forall p: nat :: CharsetBehind(v, q, p) ==> CharsetAt(v, q) && p == SkipSpaces(v, q + 1)
    ensures CharsetAt(v, q) ==> CharsetBehind(v, q, SkipSpaces(v, q + 1))
  {
    hide SkipSpaces, Lower;
    var r := SkipSpaces(v, q + 1);
    if r + 8 <= |v| {
      SameNameByCode(v[r..r + 8], "charset=");
    }
    forall p: nat | CharsetBehind(v, q, p) ensures CharsetAt(v, q) && p == r {
      assert SameLetter(v[p + 0], "charset="[0]);
      assert p == r;
    }
  }

  lemma {:induction false} IntroducesIs(v: string, q: nat)
    requires q < |v|
    ensures Introduces(v, q) <==>
              v[q] == ';' && SemicolonsBefore(v, q) % 2 == 0 && exists p: nat :: CharsetBehind(v, q, p)
  {
    hide SkipSpaces, BehindExamined, SemicolonsBefore, CharsetBehind, SameName;
    PassedOver(v, q);
    CharsetBehindIs(v, q);
  }

  /** The text behind `charset=` is the one whose quotes are taken off, and a lone quote is taken off twice. */
  lemma {:induction false} QuotesOff(v: string, q: nat, p: nat)
    requires |v| < SIZE_MAX && q == Introducer(v, 0) < |v| && p == SkipSpaces(v, q + 1) && CharsetOf(v).Some?
    ensures var r, text := CharsetOf(v).value, v[p + 8..];
            if text == "\"" then r == Range(p + 9, 0xFFFF_FFFF_FFFF_FFFF)
            else r.start + r.len <= |v| && InQuotes(text, v[r.start..r.start + r.len])
  {
    hide SkipSpaces, Introducer, Examined, BehindExamined, SameName, Minus, Unquote;
    IntroducerIntroduces(v);
    assert TextAt(v, q) == v[p + 8..];
    if v[p + 8..] == "\"" {
      assert |v| == p + 9 && v[p + 8] == '"';
      Quotes(v, q, p + 8);
      WrapsAround(p + 8);
    } else {
      CharsetText(v);
      Unquoted(v[p + 8..]);
    }
  }

  lemma {:induction false} TypeFields(rule: Rule, v: string, st: ResState)
    requires rule.handler == ContentType
    ensures var st' := HandleResponse(rule, v, st).0;
            && st'.contentType == v && st'.typeLen == Introducer(v, 0)
            && st'.charset == match CharsetOf(v) case None => st.charset case Some(r) => In(v, r)
    ensures HandleResponse(rule, v, st).1
  {
    hide EditResponse, Introducer, CharsetOf;
  }

  /** A type with a charset. Among the semicolons with an even number of semicolons directly in front of them, spaces
      aside, the one at `q` is the first with spaces and `charset=` behind it, the latter at `p`. The type ends at `q`,
      and the charset is the text behind `charset=` without its quotes, unless that is a lone quote. */
  lemma {:induction false} TypeWithCharset(rule: Rule, v: string, st: ResState, q: nat, p: nat)
    requires rule.handler == ContentType && |v| < SIZE_MAX
    requires q < |v| && v[q] == ';' && SemicolonsBefore(v, q) % 2 == 0 && CharsetBehind(v, q, p)
    requires forall j, k: nat :: 0 <= j < q && v[j] == ';' && SemicolonsBefore(v, j) % 2 == 0 ==>
               !CharsetBehind(v, j, k)
    ensures var st' := HandleResponse(rule, v, st).0;
            && st'.contentType == v && st'.typeLen == q && st'.charset.In? && st'.charset.value == v
            && var r := st'.charset.range;
               if v[p + 8..] == "\"" then r == Range(p + 9, 0xFFFF_FFFF_FFFF_FFFF)
               else r.start + r.len <= |v| && InQuotes(v[p + 8..], v[r.start..r.start + r.len])
  {
    hide *;
    IntroducesIs(v, q);
    forall j | 0 <= j < q ensures !Introduces(v, j) {
      IntroducesIs(v, j);
    }
    CharsetBehindIs(v, q);
    FirstIntroduces(v, q);
    QuotesOff(v, q, p);
    TypeFields(rule, v, st);
  }

  /** A type without a charset: behind no such semicolon are there spaces and `charset=`. The type is the whole value,
      and the charset of the response stays. */
  lemma {:induction false} TypeWithoutCharset(rule: Rule, v: string, st: ResState)
    requires rule.handler == ContentType
    requires forall j, k: nat :: 0 <= j < |v| && v[j] == ';' && SemicolonsBefore(v, j) % 2 == 0 ==>
               !CharsetBehind(v, j, k)
    ensures var st' := HandleResponse(rule, v, st).0;
            st'.contentType == v && st'.typeLen == |v| && st'.charset == st.charset
  {
    hide *;
    forall j | 0 <= j < |v| ensures !Introduces(v, j) {
      IntroducesIs(v, j);
    }
    NoneIntroduces(v);
    TypeFields(rule, v, st);
  }

  lemma {:induction false} NoneBefore(v: string, q: nat)
    requires q <= |v| && forall j :: 0 <= j < q ==> v[j] != ';'
    ensures SemicolonsBefore(v, q) == 0
  {
    if q > 0 {
      NoneBefore(v, q - 1);
    }
  }

  /** The usual form: a type, then its first semicolon, spaces, `charset=` and a text. */
  lemma {:induction false} FirstParameter(rule: Rule, v: string, st: ResState, q: nat, p: nat)
    requires rule.handler == ContentType && |v| < SIZE_MAX
    requires q < |v| && v[q] == ';' && forall j :: 0 <= j < q ==> v[j] != ';'
    requires q < p && p + 8 <= |v| && (forall j :: q < j < p ==> v[j] == ' ') && v[p..p + 8] == "charset="
    requires p + 8 == |v| || (v[p + 8] != '"' && v[|v| - 1] != '"')
    ensures var st' := HandleResponse(rule, v, st).0;
            && st'.contentType == v && st'.typeLen == q && st'.charset == In(v, Range(p + 8, |v| - p - 8))
  {
    hide *;
    Spelled(v, q, p);
    IntroducesIs(v, q);
    NoneBefore(v, q);
    forall j | 0 <= j < q ensures !Introduces(v, j) {
      IntroducesIs(v, j);
    }
    CharsetBehindIs(v, q);
    FirstIntroduces(v, q);
    Quotes(v, q, p + 8);
    NoWrap(|v|, p + 8);
    TypeFields(rule, v, st);
  }

  lemma {:induction false} Spelled(v: string, q: nat, p: nat)
    requires q < p && p + 8 <= |v| && (forall j :: q < j < p ==> v[j] == ' ') && v[p..p + 8] == "charset="
    ensures CharsetBehind(v, q, p) && v[p + 7] == '='
  {
    var text := v[p..p + 8];
    assert forall i :: 0 <= i < 8 ==> text[i] == v[p + i];
    assert v[p + 7] == text[7];
  }

  lemma {:induction false} NoWrap(a: nat, b: nat)
    requires b <= a < SIZE_MAX
    ensures Minus(a, b) == a - b
  {
  }

  /** The headers called Content-Type: an add leaves the list as it is, and every other operation takes out those that
      are sent, whatever the value; the others stay, in order, and none is created. */
  lemma {:induction false} TypeHeaders(rule: Rule, v: string, st: ResState) returns (kept: seq<nat>)
    requires rule.handler == ContentType && !rule.wildcard && rule.opcode != Append
    ensures forall i, j :: 0 <= i < j < |kept| ==> kept[i] < kept[j]
    ensures var s, after := st.entries, HandleResponse(rule, v, st).0.entries;
            && |after| == |s| && (rule.opcode == Add ==> after == s)
            && (rule.opcode != Add ==>
                  && (forall k: nat :: k in kept <==> k < |s| && s[k].hash != 0 && !SameName(s[k].key, rule.key))
                  && |Visible(after)| == |kept|
                  && forall j :: 0 <= j < |kept| ==>
                       kept[j] < |s| && Visible(after)[j] == Header(s[kept[j]].key, s[kept[j]].value))
  {
    hide EditResponse, Visible, SameName, Introducer, CharsetOf;
    kept := [];
    CreatesNothing(rule, st.entries);
    if rule.opcode != Add {
      kept := SentCleared(rule, Exact(rule.key), true, st.entries);
    }
  }

  lemma {:induction false} CreatesNothing(rule: Rule, s: seq<Entry>)
    requires rule.opcode != Append
    ensures |EditResponse(rule, "", true, s)| == |s|
    ensures rule.opcode == Add ==> EditResponse(rule, "", true, s) == s
  {
  }
}
