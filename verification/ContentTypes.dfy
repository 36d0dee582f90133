/** The charset scan of a Content-Type value. */
module ContentTypes {
  import opened Machine
  import opened Names
  import opened Rules

  /** A range of the value. */
  datatype Range = Range(start: nat, len: nat)

  // ---------- which semicolons count ----------

  /** The position behind the spaces that start at `p`. */
  function SkipSpaces(v: string, p: nat): (r: nat)
    requires p <= |v|
    ensures p <= r <= |v| && (forall j :: p <= j < r ==> v[j] == ' ') && (r < |v| ==> v[r] != ' ')
    decreases |v| - p
  {
    if p < |v| && v[p] == ' ' then SkipSpaces(v, p + 1) else p
  }

  /** A semicolon is examined unless the last thing in front of it, spaces aside, is an examined semicolon. */
  predicate Examined(v: string, q: nat)
    requires q < |v|
    decreases q, 1
  {
    v[q] == ';' && !BehindExamined(v, q)
  }

  predicate BehindExamined(v: string, q: nat)
    requires q <= |v|
    decreases q, 0
  {
    q > 0 && if v[q - 1] == ' ' then BehindExamined(v, q - 1) else Examined(v, q - 1)
  }

  /** The text behind the semicolon at `q`, after spaces, starts with `charset=`. */
  predicate CharsetAt(v: string, q: nat)
    requires q < |v|
  {
    var p := SkipSpaces(v, q + 1);
    p + 8 <= |v| && SameName(v[p..p + 8], "charset=")
  }

  /** The semicolon at `q` introduces the charset. */
  predicate Introduces(v: string, q: nat)
    requires q < |v|
  {
    Examined(v, q) && CharsetAt(v, q)
  }

  /** Where the charset text starts and ends: one quote is taken off at each end. */
  function Start(v: string, q: nat): (r: nat)
    requires q < |v| && CharsetAt(v, q)
    ensures q + 9 <= r <= |v|
  {
    var p := SkipSpaces(v, q + 1) + 8;
    if p < |v| && v[p] == '"' then p + 1 else p
  }

  function End(v: string): nat {
    if v != "" && v[|v| - 1] == '"' then |v| - 1 else |v|
  }

  /** The first semicolon from `q` on that introduces the charset, or the length. */
  function Introducer(v: string, q: nat): (r: nat)
    requires q <= |v|
    ensures q <= r <= |v| && (r < |v| ==> Introduces(v, r)) && forall j :: q <= j < r ==> !Introduces(v, j)
    decreases |v| - q
  {
    if q == |v| || Introduces(v, q) then q else Introducer(v, q + 1)
  }

  /** The charset range, if there is one. Its length is computed on unsigned words. */
  function CharsetOf(v: string): Option<Range> {
    var q := Introducer(v, 0);
    if q < |v| then Some(Range(Start(v, q), Minus(End(v), Start(v, q)))) else None
  }

  // ---------- the scan ----------

  lemma {:induction false} SkippedBehind(v: string, q: nat, p: nat)
    requires q < p <= |v| && Examined(v, q) && forall j :: q < j < p ==> v[j] == ' '
    ensures BehindExamined(v, p)
    decreases p
  {
    if q + 1 < p {
      SkippedBehind(v, q, p - 1);
    }
  }

  lemma {:induction false} SkippedTo(v: string, a: nat, p: nat)
    requires a <= p <= |v| && (forall j :: a <= j < p ==> v[j] == ' ') && (p < |v| ==> v[p] != ' ')
    ensures SkipSpaces(v, a) == p
    decreases p - a
  {
    if a < p {
      SkippedTo(v, a + 1, p);
    }
  }

  /** A character that is no semicolon. */
  lemma {:induction false} OtherStep(v: string, p: nat)
    requires p < |v| && v[p] != ';' && !BehindExamined(v, p)
    ensures !Introduces(v, p) && !BehindExamined(v, p + 1)
  {
  }

  /** An examined semicolon, the spaces behind it and the character behind these. */
  lemma {:induction false} SemicolonStep(v: string, last: nat, p: nat)
    requires last < p <= |v| && v[last] == ';' && !BehindExamined(v, last)
    requires (forall j :: last < j < p ==> v[j] == ' ') && (p < |v| ==> v[p] != ' ')
    ensures SkipSpaces(v, last + 1) == p
    ensures Introduces(v, last) <==> p + 8 <= |v| && SameName(v[p..p + 8], "charset=")
    ensures forall q :: last < q < p ==> !Introduces(v, q)
    ensures p < |v| ==> !Introduces(v, p) && !BehindExamined(v, p + 1)
  {
    SkippedTo(v, last + 1, p);
    SkippedBehind(v, last, p);
  }

  /** Walks the value once. The length of the type stops at the first semicolon that introduces a charset, and the
      charset is what is behind it. */
  method ScanCharset(v: string) returns (typeLen: nat, charset: Option<Range>)
    ensures typeLen == Introducer(v, 0) && charset == CharsetOf(v)
  {
    hide *;
    typeLen, charset := |v|, None;
    NothingBehind(v);
    var p := 0;
    while p != |v|
      invariant p <= |v| && typeLen == |v| && charset == None
      invariant forall q :: 0 <= q < p ==> !Introduces(v, q)
      invariant !BehindExamined(v, p)
      decreases |v| - p
    {
      if v[p] != ';' {
        OtherStep(v, p);
        p := p + 1;
        continue;
      }
      var last := p;
      p := p + 1;
      while p < |v| && v[p] == ' '
        invariant last < p <= |v| && forall j :: last < j < p ==> v[j] == ' '
      {
        p := p + 1;
      }
      SemicolonStep(v, last, p);
      if p == |v| {
        NoneIntroduces(v);
        return;
      }
      if |v| - p < 8 || !SameName(v[p..p + 8], "charset=") {
        p := p + 1;
        continue;
      }
      p := p + 8;
      typeLen := last;
      Quotes(v, last, p);
      if p < |v| && v[p] == '"' {
        p := p + 1;
      }
      var end := |v|;
      if v[end - 1] == '"' {
        end := end - 1;
      }
      charset := Some(Range(p, Minus(end, p)));
      FirstIntroduces(v, last);
      return;
    }
    NoneIntroduces(v);
  }

  lemma {:induction false} NoneIntroduces(v: string)
    requires forall q :: 0 <= q < |v| ==> !Introduces(v, q)
    ensures Introducer(v, 0) == |v| && CharsetOf(v) == None
  {
  }

  lemma {:induction false} FirstIntroduces(v: string, q: nat)
    requires q < |v| && Introduces(v, q) && forall j :: 0 <= j < q ==> !Introduces(v, j)
    ensures Introducer(v, 0) == q && CharsetOf(v) == Some(Range(Start(v, q), Minus(End(v), Start(v, q))))
  {
  }

  lemma {:induction false} NothingBehind(v: string)
    ensures !BehindExamined(v, 0)
  {
  }

  lemma {:induction false} Quotes(v: string, q: nat, p: nat)
    requires q < |v| && Introduces(v, q) && p == SkipSpaces(v, q + 1) + 8
    ensures Start(v, q) == if p < |v| && v[p] == '"' then p + 1 else p
    ensures End(v) == if v[|v| - 1] == '"' then |v| - 1 else |v|
  {
  }

  /** The text behind `charset=`. */
  function TextAt(v: string, q: nat): string
    requires q < |v| && CharsetAt(v, q)
  {
    v[SkipSpaces(v, q + 1) + 8..]
  }

  /** The charset is a range inside the value exactly when the text behind `charset=` is not a lone double quote. */
  lemma {:induction false} CharsetInside(v: string)
    requires |v| < SIZE_MAX && CharsetOf(v).Some?
    ensures var r := CharsetOf(v).value; r.start + r.len <= |v| <==> TextAt(v, Introducer(v, 0)) != "\""
  {
    hide Examined, BehindExamined, Lower, Introducer, Minus;
    var q := Introducer(v, 0);
    IntroducerIntroduces(v);
    var text, k := TextAt(v, q), SkipSpaces(v, q + 1) + 8;
    if text != "\"" {
      RangeInText(v, q);
    } else {
      assert |v| == k + 1 && v[k] == '"';
      Quotes(v, q, k);
      WrapsAround(k);
    }
  }

  lemma {:induction false} WrapsAround(k: nat)
    ensures Minus(k, k + 1) == SIZE_MAX
  {
  }

  predicate Quoted(text: string, i: int) {
    0 <= i < |text| && text[i] == '"'
  }

  /** A text without the quote at each end that has one. */
  function Unquote(text: string): string
    requires text != "\""
  {
    OneChar(text);
    text[if Quoted(text, 0) then 1 else 0..if Quoted(text, |text| - 1) then |text| - 1 else |text|]
  }

  lemma {:induction false} OneChar(text: string)
    ensures |text| == 1 ==> text == [text[0]]
  {
  }

  lemma {:induction false} Unquoted(text: string)
    requires text != "\""
    ensures text == (if Quoted(text, 0) then "\"" else "") + Unquote(text)
                    + (if Quoted(text, |text| - 1) then "\"" else "")
  {
    OneChar(text);
  }

  /** Then it is that text without the quote at each end that has one. */
  lemma {:induction false} CharsetText(v: string)
    requires |v| < SIZE_MAX && CharsetOf(v).Some? && TextAt(v, Introducer(v, 0)) != "\""
    ensures var r := CharsetOf(v).value;
            r.start + r.len <= |v| && v[r.start..r.start + r.len] == Unquote(TextAt(v, Introducer(v, 0)))
  {
    hide SkipSpaces, Introducer, Introduces, Start, End, Minus, Unquote, Quoted;
    var q := Introducer(v, 0);
    assert q < |v|;
    RangeInText(v, q);
    UnquotedSlice(v, SkipSpaces(v, q + 1) + 8, CharsetOf(v).value.start, CharsetOf(v).value.len);
  }

  lemma {:induction false} UnquotedSlice(v: string, k: nat, a: nat, n: nat)
    requires k <= |v| && v[k..] != "\""
    requires var text := v[k..];
             && a == k + (if Quoted(text, 0) then 1 else 0)
             && a + n == k + if Quoted(text, |text| - 1) then |text| - 1 else |text|
    ensures a + n <= |v| && v[a..a + n] == Unquote(v[k..])
  {
    OneChar(v[k..]);
  }

  lemma {:induction false} RangeInText(v: string, q: nat)
    requires |v| < SIZE_MAX && q == Introducer(v, 0) < |v| && TextAt(v, q) != "\""
    ensures var text, r, k := TextAt(v, q), CharsetOf(v).value, SkipSpaces(v, q + 1) + 8;
            && r.start == k + (if Quoted(text, 0) then 1 else 0)
            && r.start + r.len == k + if Quoted(text, |text| - 1) then |text| - 1 else |text|
  {
    hide SkipSpaces, Introducer, Examined, CharsetAt;
    var k := SkipSpaces(v, q + 1) + 8;
    LastOfCharset(v, q);
    Quotes(v, q, k);
    hide Start, End;
    var text := v[k..];
    assert k < |v| ==> text[0] == v[k] && text[|text| - 1] == v[|v| - 1];
    assert |text| == 1 ==> text == [text[0]];
  }

  lemma {:induction false} LastOfCharset(v: string, q: nat)
    requires q < |v| && CharsetAt(v, q)
    ensures SkipSpaces(v, q + 1) + 8 == |v| ==> v[|v| - 1] == '='
  {
    hide SkipSpaces, Lower;
    var p := SkipSpaces(v, q + 1);
    SameLast(v[p..p + 8], "charset=");
  }

  /** The type stops at the full length, or at a semicolon with spaces and `charset=` behind it. */
  lemma {:induction false} TypeLength(v: string)
    ensures var q := Introducer(v, 0);
            q < |v| ==> v[q] == ';' && exists p :: SpacedCharset(v, q, p)
  {
    hide Examined, BehindExamined, Lower, Introducer;
    var q := Introducer(v, 0);
    IntroducerIntroduces(v);
    if q < |v| {
      var p := SkipSpaces(v, q + 1);
      assert SpacedCharset(v, q, p);
    }
  }

  lemma {:induction false} IntroducerIntroduces(v: string)
    ensures var q := Introducer(v, 0); q <= |v| && (q < |v| ==> Introduces(v, q) && v[q] == ';')
  {
  }

  predicate SpacedCharset(v: string, q: nat, p: nat) {
    q < p <= |v| - 8 && (forall j :: q < j < p ==> v[j] == ' ') && SameName(v[p..p + 8], "charset=")
  }

  // ---------- a semicolon that is passed over ----------

  /** The first semicolon from `q` on with `charset=` behind it, or the length. */
  function FirstAt(v: string, q: nat): (r: nat)
    requires q <= |v|
    ensures q <= r <= |v| && (r < |v| ==> v[r] == ';' && CharsetAt(v, r))
    ensures forall j :: q <= j < r ==> !(v[j] == ';' && CharsetAt(v, j))
    decreases |v| - q
  {
    if q == |v| || (v[q] == ';' && CharsetAt(v, q)) then q else FirstAt(v, q + 1)
  }

  /** How many semicolons stand directly in front of position `q`, spaces aside. */
  function SemicolonsBefore(v: string, q: nat): nat
    requires q <= |v|
  {
    if q == 0 then 0
    else if v[q - 1] == ' ' then SemicolonsBefore(v, q - 1)
    else if v[q - 1] == ';' then 1 + SemicolonsBefore(v, q - 1)
    else 0
  }

  lemma {:induction false} PassedOver(v: string, q: nat)
    requires q <= |v|
    ensures BehindExamined(v, q) <==> SemicolonsBefore(v, q) % 2 == 1
  {
    if q > 0 {
      PassedOver(v, q - 1);
    }
  }

  /** The scan finds the first semicolon with `charset=` behind it exactly if an even number of semicolons stands
      directly in front of that one: after a semicolon without `charset=` it steps over the next character. */
  lemma {:induction false} FindsFirst(v: string)
    ensures var q := FirstAt(v, 0); Introducer(v, 0) == q <==> (q < |v| ==> SemicolonsBefore(v, q) % 2 == 0)
  {
    hide CharsetAt, BehindExamined, SemicolonsBefore;
    var q, r := FirstAt(v, 0), Introducer(v, 0);
    PassedOver(v, q);
    assert r < |v| ==> Introduces(v, r) && v[r] == ';' && CharsetAt(v, r);
    assert q < |v| && !BehindExamined(v, q) ==> Introduces(v, q);
  }

  lemma {:induction false} NoSpaces(v: string, p: nat)
    requires p < |v| && v[p] != ' '
    ensures SkipSpaces(v, p) == p
  {
  }

  lemma {:induction false} FirstLetters(s: string)
    requires s != "" && s[0] == ';'
    ensures !SameName(s, "charset=")
  {
    assert Lower(s)[0] == ';' && Lower("charset=")[0] == 'c';
  }

  lemma {:induction false} SecondHasCharset()
    ensures var v := ";;charset=a"; CharsetAt(v, 1) && FirstAt(v, 0) == 1
  {
    var v := ";;charset=a";
    assert v[0] == ';' && v[1] == ';' && v[2] == 'c';
    NoSpaces(v, 1);
    NoSpaces(v, 2);
    assert v[2..10] == "charset=";
    FirstLetters(v[1..9]);
    hide Lower, SkipSpaces, BehindExamined;
    assert CharsetAt(v, 1) && !CharsetAt(v, 0);
  }

  lemma {:induction false} OnlyTwoSemicolons()
    ensures var v := ";;charset=a"; forall q :: 0 <= q < |v| ==> !Introduces(v, q)
  {
    hide SkipSpaces, Lower;
    var v := ";;charset=a";
    SecondHasCharset();
    PassedOver(v, 1);
    assert SemicolonsBefore(v, 1) == 1;
    assert forall j :: 2 <= j < |v| ==> v[j] != ';';
  }

  /** The second of two semicolons is passed over, and with it the charset. */
  lemma {:induction false} SecondSemicolon()
    ensures var v := ";;charset=a";
            CharsetAt(v, 1) && FirstAt(v, 0) == 1 && CharsetOf(v) == None && Introducer(v, 0) == |v|
  {
    hide *;
    SecondHasCharset();
    FindsFirst(";;charset=a");
    OnlyTwoSemicolons();
    NoneIntroduces(";;charset=a");
  }

  /** A lone double quote: the length of the charset wraps around. */
  lemma {:induction false} LoneQuote()
    ensures CharsetOf(";charset=\"") == Some(Range(10, 0xFFFF_FFFF_FFFF_FFFF))
  {
    var v := ";charset=\"";
    assert SkipSpaces(v, 1) == 1;
    hide SkipSpaces, Lower;
    assert v[1..9] == "charset=";
    assert CharsetAt(v, 0);
    hide CharsetAt;
    assert Examined(v, 0);
    FirstIntroduces(v, 0);
  }
}
