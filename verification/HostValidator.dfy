/** The Host value validator: a five-state scan over `host [":" port]`. */
module HostValidator {
  import opened Machine
  import opened Names
  import opened Decimals
  import opened Rules

  // ---------- the accepted language ----------

  predicate Alphanumeric(c: char) {
    'A' <= c <= 'Z' || 'a' <= c <= 'z' || '0' <= c <= '9'
  }

  /** The unreserved marks and the sub-delims of RFC 3986, section 2. */
  predicate Mark(c: char) {
    || c == '-' || c == '.' || c == '_' || c == '~'
    || c == '!' || c == '$' || c == '&' || c == '\'' || c == '(' || c == ')'
    || c == '*' || c == '+' || c == ',' || c == ';' || c == '='
  }

  predicate NameChar(c: char) { Alphanumeric(c) || Mark(c) || c == '%' }

  predicate LiteralChar(c: char) { Alphanumeric(c) || Mark(c) || c == ':' }

  predicate NoDotDot(s: string) {
    forall i :: 0 < i < |s| ==> !(s[i - 1] == '.' && s[i] == '.')
  }

  predicate NameText(s: string) {
    NoDotDot(s) && forall i :: 0 <= i < |s| ==> NameChar(s[i])
  }

  predicate ValidName(s: string) {
    s != "" && s != "." && NameText(s)
  }

  predicate ValidLiteral(s: string) {
    && 2 <= |s| && s[0] == '[' && s[|s| - 1] == ']'
    && NoDotDot(s) && forall i :: 0 < i < |s| - 1 ==> LiteralChar(s[i])
  }

  predicate ValidHost(s: string) { ValidName(s) || ValidLiteral(s) }

  /** Nothing, or a colon and any number of digits whose value fits a port number. */
  predicate ValidPort(s: string) {
    s == "" || (s[0] == ':' && AllDigits(s[1..]) && Decimal(s[1..]) <= 65535)
  }

  /** A host followed by an optional port. */
  ghost predicate Accepted(s: string) {
    exists k :: 0 <= k <= |s| && ValidHost(s[..k]) && ValidPort(s[k..])
  }

  // ---------- where the host ends ----------

  function IndexOf(s: string, c: char): (k: nat)
    ensures k <= |s| && (k < |s| ==> s[k] == c)
    ensures forall j :: 0 <= j < k ==> s[j] != c
  {
    if s == "" || s[0] == c then 0 else 1 + IndexOf(s[1..], c)
  }

  /** The length of the host: behind the first bracket that closes, or in front of the first colon. */
  function HostEnd(s: string): (k: nat)
    ensures k <= |s|
  {
    if s != "" && s[0] == '[' then (var b := IndexOf(s, ']'); if b < |s| then b + 1 else b)
    else IndexOf(s, ':')
  }

  predicate Accepts(s: string) {
    ValidHost(s[..HostEnd(s)]) && ValidPort(s[HostEnd(s)..])
  }

  /** A string splits into a host and a port in at most one way. */
  lemma {:induction false} SplitIsHostEnd(s: string, k: nat)
    requires k <= |s| && ValidHost(s[..k]) && ValidPort(s[k..])
    ensures k == HostEnd(s)
  {
    var h := s[..k];
    if ValidLiteral(h) {
      forall i | 0 < i < k - 1 ensures s[i] != ']' {
        assert LiteralChar(h[i]);
      }
      assert h[k - 1] == s[k - 1] && h[0] == s[0];
    } else {
      forall i | 0 <= i < k ensures s[i] != ':' && s[i] != '[' {
        assert NameChar(h[i]);
      }
      if k < |s| {
        assert s[k] == s[k..][0];
      }
    }
  }

  lemma {:induction false} AcceptsIsAccepted(s: string)
    ensures Accepts(s) <==> Accepted(s)
  {
    if Accepts(s) {
      var k := HostEnd(s);
      assert ValidHost(s[..k]) && ValidPort(s[k..]);
    }
    if k :| 0 <= k <= |s| && ValidHost(s[..k]) && ValidPort(s[k..]) {
      SplitIsHostEnd(s, k);
    }
  }

  // ---------- the scan ----------

  /** The position of the last dot, or `none`. */
  function LastDot(s: string, none: nat): (d: nat)
    ensures d == none || (d < |s| && s[d] == '.')
    ensures '.' in s ==> d < |s| && s[d] == '.' && forall j :: d < j < |s| ==> s[j] != '.'
  {
    if s == "" then none else if s[|s| - 1] == '.' then |s| - 1 else LastDot(s[..|s| - 1], none)
  }

  datatype State = HostStart | HostName | IpLiteral | HostDone | Port

  /** What the scan knows after `i` characters. */
  ghost predicate Scanned(s: string, i: nat, state: State, dotPos: nat, hostLen: nat, port: nat) {
    && i <= |s|
    && match state {
         case HostStart => i == 0 && hostLen == |s| && dotPos == |s|
         case HostName => 0 < i && NameText(s[..i]) && hostLen == |s| && dotPos == LastDot(s[..i], |s|)
         case IpLiteral =>
           0 < i && s[0] == '[' && LiteralText(s[..i]) && hostLen == |s| && dotPos == LastDot(s[..i], |s|)
         case HostDone => hostLen == i && ValidLiteral(s[..i]) && dotPos == LastDot(s[..i], |s|)
         case Port =>
           && hostLen < i && s[hostLen] == ':' && (NameText(s[..hostLen]) || ValidLiteral(s[..hostLen]))
           && dotPos == LastDot(s[..hostLen], |s|)
           && AllDigits(s[hostLen + 1..i]) && port == Decimal(s[hostLen + 1..i]) <= 65535
       }
    && (state != Port ==> port == 0)
  }

  /** An opening bracket and any literal characters. */
  predicate LiteralText(s: string) {
    s != "" && s[0] == '[' && NoDotDot(s) && forall i :: 0 < i < |s| ==> LiteralChar(s[i])
  }

  // ---------- the result ----------

  function StripDot(h: string): string {
    if h != "" && h[|h| - 1] == '.' then h[..|h| - 1] else h
  }

  /** The normal form of an accepted value: the host in lower case, without the port and without a final dot. */
  function Normalize(s: string): Option<string> {
    if Accepts(s) then Some(Lower(StripDot(s[..HostEnd(s)]))) else None
  }

  // ---------- the steps of the scan ----------

  /** The test for an adjacent dot, on unsigned words, is true of adjacent dots only: it never fires by wrapping
      around. */
  lemma {:induction false} DotTest(s: string, h: string)
    requires h <= s && |s| < SIZE_MAX
    ensures LastDot(h, |s|) == Dec(|h|) <==> h != "" && h[|h| - 1] == '.'
  {
  }

  lemma {:induction false} NoDotDotSnoc(h: string, c: char)
    requires NoDotDot(h)
    ensures NoDotDot(h + [c]) <==> !(c == '.' && h != "" && h[|h| - 1] == '.')
  {
    var s := h + [c];
    if c == '.' && h != "" && h[|h| - 1] == '.' {
      assert s[|h| - 1] == '.' && s[|h|] == '.';
    } else {
      forall i | 0 < i < |s| ensures !(s[i - 1] == '.' && s[i] == '.') {
        if i < |h| {
          assert s[i] == h[i] && s[i - 1] == h[i - 1];
        }
      }
    }
  }

  lemma {:induction false} LastDotSnoc(h: string, c: char, none: nat)
    ensures LastDot(h + [c], none) == if c == '.' then |h| else LastDot(h, none)
  {
    assert (h + [c])[..|h|] == h;
  }

  lemma {:induction false} ScanStarts(s: string)
    ensures Scanned(s, 0, HostStart, |s|, |s|, 0)
  {
  }

  /** The state a character of the host is read in; the first one, unless it opens a literal, is read as part of a
      name. */
  predicate InName(s: string, i: nat, state: State) {
    i < |s| && (state == HostName || (state == HostStart && s[i] != '['))
  }

  /** One more character of the host, in either of the two host states. */
  lemma {:induction false} HostStep(s: string, i: nat, state: State, dotPos: nat, hostLen: nat, port: nat)
    requires i < |s| < SIZE_MAX && Scanned(s, i, state, dotPos, hostLen, port)
             && (InName(s, i, state) || state == IpLiteral)
    requires if state == IpLiteral then LiteralChar(s[i]) else NameChar(s[i])
    requires !(s[i] == '.' && dotPos == Dec(i))
    ensures Scanned(s, i + 1, if state == IpLiteral then IpLiteral else HostName,
                    if s[i] == '.' then i else dotPos, hostLen, port)
    ensures hostLen == |s|
  {
    assert s[..i + 1] == s[..i] + [s[i]];
    DotTest(s, s[..i]);
    NoDotDotSnoc(s[..i], s[i]);
    LastDotSnoc(s[..i], s[i], |s|);
  }

  /** The bracket that opens a literal. */
  lemma {:induction false} OpenStep(s: string)
    requires s != "" && s[0] == '['
    ensures Scanned(s, 1, IpLiteral, |s|, |s|, 0)
  {
  }

  /** Two adjacent dots in front of the end of the host. */
  lemma {:induction false} DotDotRejects(s: string, i: nat)
    requires 0 < i < HostEnd(s) && s[i - 1] == '.' && s[i] == '.'
    ensures !Accepts(s)
  {
    var h := s[..HostEnd(s)];
    assert h[i - 1] == '.' && h[i] == '.';
  }

  /** A name of permitted characters so far, then one that neither continues nor ends it. */
  lemma {:induction false} NameRejects(s: string, i: nat, state: State, dotPos: nat, hostLen: nat, port: nat)
    requires i < |s| < SIZE_MAX && Scanned(s, i, state, dotPos, hostLen, port) && InName(s, i, state)
    requires s[i] != ':' && (!NameChar(s[i]) || (s[i] == '.' && dotPos == Dec(i)))
    ensures !Accepts(s)
  {
    DotTest(s, s[..i]);
    forall j | 0 <= j < i ensures s[j] != ':' && s[j] != '[' {
      assert NameChar(s[..i][j]);
    }
    var h := s[..HostEnd(s)];
    assert i < HostEnd(s);
    assert h[0] == s[0] && h[i] == s[i];
    if NameChar(s[i]) {
      DotDotRejects(s, i);
    }
  }

  lemma {:induction false} LiteralRejects(s: string, i: nat, dotPos: nat, hostLen: nat, port: nat)
    requires i < |s| < SIZE_MAX && Scanned(s, i, IpLiteral, dotPos, hostLen, port)
    requires s[i] != ']' && (!LiteralChar(s[i]) || (s[i] == '.' && dotPos == Dec(i)))
    ensures !Accepts(s)
  {
    DotTest(s, s[..i]);
    assert s[..i][0] == s[0];
    forall j | 0 < j < i ensures s[j] != ']' {
      assert LiteralChar(s[..i][j]);
    }
    var h := s[..HostEnd(s)];
    assert i < HostEnd(s);
    assert h[0] == s[0] && h[i] == s[i];
    assert !ValidName(h) by { assert !NameChar(h[0]); }
    if LiteralChar(s[i]) {
      DotDotRejects(s, i);
    } else if |h| == i + 1 {
      assert h[|h| - 1] != ']';
    }
  }

  /** The end of the host, once it is known, is where the grammar puts it. */
  lemma {:induction false} HostEndIs(s: string, k: nat)
    requires k <= |s| && (k < |s| && NameText(s[..k]) ==> s[k] == ':')
    requires NameText(s[..k]) || ValidLiteral(s[..k])
    requires k == 0 ==> s == "" || s[0] == ':'
    ensures HostEnd(s) == k
  {
    var h := s[..k];
    if ValidLiteral(h) {
      forall i | 0 < i < k - 1 ensures s[i] != ']' {
        assert LiteralChar(h[i]);
      }
      assert h[k - 1] == s[k - 1] && h[0] == s[0];
    } else {
      forall i | 0 <= i < k ensures s[i] != ':' && s[i] != '[' {
        assert NameChar(h[i]);
      }
    }
  }

  /** A digit is refused exactly when it takes the number beyond 65535. */
  lemma {:induction false} PortDigit(port: nat, d: nat)
    requires port <= 65535 && d <= 9
    ensures (port >= 6553 && (port > 6553 || d > 5)) <==> 10 * port + d > 65535
  {
  }

  /** A character behind the colon that is no digit, or a digit that takes the port beyond 65535. */
  lemma {:induction false} PortRejects(s: string, i: nat, dotPos: nat, hostLen: nat, port: nat)
    requires i < |s| && Scanned(s, i, Port, dotPos, hostLen, port)
    requires !IsDigit(s[i]) || 10 * port + Digit(s[i]) > 65535
    ensures !Accepts(s)
  {
    hide NameText, ValidLiteral, LastDot, HostEnd;
    HostEndIs(s, hostLen);
    var digits := s[hostLen..][1..];
    Behind(s, hostLen, i);
    if IsDigit(s[i]) {
      DecimalSnoc(s[hostLen + 1..i], s[i]);
      if AllDigits(digits) {
        DecimalPrefix(digits, i - hostLen);
      }
    }
  }

  /** The text behind the colon at `k`, up to position `i`. */
  lemma {:induction false} Behind(s: string, k: nat, i: nat)
    requires k < i < |s|
    ensures var rest := s[k..][1..];
            && i - k <= |rest| && s[k..][0] == s[k] && rest[i - k - 1] == s[i] && rest[..i - k] == s[k + 1..i] + [s[i]]
  {
  }

  lemma {:induction false} PortStep(s: string, i: nat, dotPos: nat, hostLen: nat, port: nat)
    requires i < |s| && Scanned(s, i, Port, dotPos, hostLen, port) && IsDigit(s[i])
    requires 10 * port + Digit(s[i]) <= 65535
    ensures Scanned(s, i + 1, Port, dotPos, hostLen, port * 10 + Digit(s[i]))
  {
    assert s[hostLen + 1..i + 1] == s[hostLen + 1..i] + [s[i]];
    DecimalSnoc(s[hostLen + 1..i], s[i]);
  }

  /** The colon that ends the host. */
  lemma {:induction false} ColonStep(s: string, i: nat, state: State, dotPos: nat, hostLen: nat, port: nat)
    requires i < |s| && Scanned(s, i, state, dotPos, hostLen, port)
    requires s[i] == ':' && (InName(s, i, state) || state == HostDone)
    ensures Scanned(s, i + 1, Port, dotPos, i, 0)
  {
    assert s[i + 1..i + 1] == "";
  }

  /** The bracket that ends the literal. */
  lemma {:induction false} BracketStep(s: string, i: nat, dotPos: nat, hostLen: nat, port: nat)
    requires i < |s| && Scanned(s, i, IpLiteral, dotPos, hostLen, port) && s[i] == ']'
    ensures Scanned(s, i + 1, HostDone, dotPos, i + 1, 0)
  {
    assert s[..i + 1] == s[..i] + [s[i]];
    NoDotDotSnoc(s[..i], s[i]);
    LastDotSnoc(s[..i], s[i], |s|);
  }

  /** Anything but a colon behind a literal. */
  lemma {:induction false} TrailingRejects(s: string, i: nat, dotPos: nat, hostLen: nat, port: nat)
    requires i < |s| && Scanned(s, i, HostDone, dotPos, hostLen, port) && s[i] != ':'
    ensures !Accepts(s)
  {
    assert !NameText(s[..i]) by { assert !NameChar(s[..i][0]); }
    HostEndIs(s, i);
    assert s[i..][0] == s[i];
  }

  /** What the end of the scan makes of the value. */
  lemma {:induction false} LiteralOpen(s: string, dotPos: nat, hostLen: nat, port: nat)
    requires Scanned(s, |s|, IpLiteral, dotPos, hostLen, port)
    ensures !Accepts(s)
  {
    assert s[..|s|] == s;
    assert forall i :: 0 < i < |s| ==> LiteralChar(s[i]);
    assert !NameChar('[');
    assert s[..HostEnd(s)] == s;
  }

  lemma {:induction false} HostKnown(s: string, k: nat, dotPos: nat)
    requires |s| < SIZE_MAX && k <= |s| && HostEnd(s) == k && ValidPort(s[k..])
    requires (NameText(s[..k]) || ValidLiteral(s[..k])) && dotPos == LastDot(s[..k], |s|)
    ensures var n := if dotPos == Dec(k) then k - 1 else k;
            && 0 <= n <= |s|
            && Normalize(s) == if n != 0 then Some(Lower(s[..n])) else None
  {
    hide HostEnd, ValidPort, NameText, NoDotDot;
    var h := s[..k];
    DotTest(s, h);
    NamesAndLiterals(h);
    if |h| == 1 {
      assert h == [h[0]];
    }
    if h != "" && h[|h| - 1] == '.' {
      assert h[..|h| - 1] == s[..k - 1];
    }
  }

  lemma {:induction false} NamesAndLiterals(h: string)
    ensures NameText(h) && ValidLiteral(h) ==> false
  {
    if h != "" && h[0] == '[' {
      assert !NameChar(h[0]);
    }
  }

  lemma {:induction false} ScanEnds(s: string, state: State, dotPos: nat, hostLen: nat, port: nat)
    requires |s| < SIZE_MAX && Scanned(s, |s|, state, dotPos, hostLen, port) && state != IpLiteral
    ensures var n := if dotPos == Dec(hostLen) then hostLen - 1 else hostLen;
            && 0 <= n <= |s|
            && Normalize(s) == if n != 0 then Some(Lower(s[..n])) else None
  {
    hide HostEnd, NameText, ValidLiteral, LastDot, Normalize;
    assert s[..|s|] == s;
    EmptyText(s);
    assert ValidPort(s[hostLen..]) by {
      if state == Port {
        assert s[hostLen..][1..] == s[hostLen + 1..|s|];
      }
    }
    HostEndIs(s, hostLen);
    HostKnown(s, hostLen, dotPos);
  }

  lemma {:induction false} EmptyText(s: string)
    ensures NameText("") && LastDot("", |s|) == |s|
  {
  }

  lemma {:induction false} Refused(s: string)
    requires !Accepts(s)
    ensures Normalize(s) == None
  {
  }

  lemma {:induction false} ScanFacts(s: string, i: nat, state: State, dotPos: nat, hostLen: nat, port: nat)
    requires Scanned(s, i, state, dotPos, hostLen, port)
    ensures state == HostStart <==> i == 0
    ensures state == HostStart ==> dotPos == |s|
    ensures state != Port ==> i <= hostLen && port == 0
    ensures state == HostDone ==> hostLen == i
    ensures state == HostStart || state == HostName || state == IpLiteral ==> hostLen == |s|
  {
  }

  lemma {:induction false} InNameIs(s: string, i: nat, state: State)
    requires i < |s|
    ensures InName(s, i, state) <==> state == HostName || (state == HostStart && s[i] != '[')
  {
  }

  lemma {:induction false} NoUpper(h: string)
    requires forall j :: 0 <= j < |h| ==> !('A' <= h[j] <= 'Z')
    ensures Lower(h) == h
  {
  }

  // ---------- the validator ----------

  /** Scans the value once. It is accepted exactly when it is in the language, and the result is its normal form: the
      front of the value without capital letters, each of which has become the letter 32 codes further on. */
  method ValidateHost(s: string) returns (r: Option<string>)
    requires |s| < SIZE_MAX
    ensures r == Normalize(s)
    ensures r.Some? ==> 0 < |r.value| <= |s| && forall i :: 0 <= i < |r.value| ==>
              && !('A' <= r.value[i] <= 'Z')
              && r.value[i] as int == s[i] as int + if 'A' <= s[i] <= 'Z' then 32 else 0
  {
    hide *;
    NormalByCode(s);
    var dotPos: nat, hostLen: nat, port: nat, state := |s|, |s|, 0, HostStart;
    var alloc := false;
    ScanStarts(s);
    for i := 0 to |s|
      invariant Scanned(s, i, state, dotPos, hostLen, port)
      invariant hostLen <= |s| && port <= 65535
      invariant alloc || forall j :: 0 <= j < i && j < hostLen ==> !('A' <= s[j] <= 'Z')
    {
      var ch := s[i];
      ScanFacts(s, i, state, dotPos, hostLen, port);
      if state == HostStart && ch == '[' {
        OpenStep(s);
        state := IpLiteral;
      } else if state == HostStart || state == HostName {
        InNameIs(s, i, state);
        if ch == ':' {
          ColonStep(s, i, state, dotPos, hostLen, port);
          hostLen := i;
          state := Port;
        } else if !NameChar(ch) || (ch == '.' && dotPos == Dec(i)) {
          NameRejects(s, i, state, dotPos, hostLen, port);
          Refused(s);
          return None;
        } else {
          HostStep(s, i, state, dotPos, hostLen, port);
          state := HostName;
          dotPos := if ch == '.' then i else dotPos;
        }
      } else if state == IpLiteral {
        if ch == ']' {
          BracketStep(s, i, dotPos, hostLen, port);
          hostLen := i + 1;
          state := HostDone;
        } else if !LiteralChar(ch) || (ch == '.' && dotPos == Dec(i)) {
          LiteralRejects(s, i, dotPos, hostLen, port);
          Refused(s);
          return None;
        } else {
          HostStep(s, i, IpLiteral, dotPos, hostLen, port);
          dotPos := if ch == '.' then i else dotPos;
        }
      } else if state == HostDone {
        if ch != ':' {
          TrailingRejects(s, i, dotPos, hostLen, port);
          Refused(s);
          return None;
        }
        ColonStep(s, i, state, dotPos, hostLen, port);
        state := Port;
      } else {
        if !IsDigit(ch) {
          PortRejects(s, i, dotPos, hostLen, port);
          Refused(s);
          return None;
        }
        var d := Digit(ch);
        PortDigit(port, d);
        if port >= 6553 && (port > 6553 || d > 5) {
          PortRejects(s, i, dotPos, hostLen, port);
          Refused(s);
          return None;
        }
        PortStep(s, i, dotPos, hostLen, port);
        port := port * 10 + d;
      }
      if state != Port && 'A' <= ch <= 'Z' {
        alloc := true;
      }
    }
    if state == IpLiteral {
      LiteralOpen(s, dotPos, hostLen, port);
      Refused(s);
      return None;
    }
    ScanEnds(s, state, dotPos, hostLen, port);
    if dotPos == Dec(hostLen) {
      hostLen := hostLen - 1;
    }
    if hostLen == 0 {
      return None;
    }
    if alloc {
      return Some(Lower(s[..hostLen]));
    }
    NoUpper(s[..hostLen]);
    return Some(s[..hostLen]);
  }

  // ---------- what the normal form is ----------

  /** By character codes: the host part of the value, without a dot at its end, and with 32 added to the code of each
      capital letter. Behind it nothing is left, or a dot, or a port, or both. */
  lemma {:induction false} NormalByCode(s: string)
    ensures Normalize(s).Some? ==> var h := Normalize(s).value;
            && 0 < |h| <= |s| && h[|h| - 1] != '.'
            && (|h| < |s| && s[|h|] != '.' ==> s[|h|] == ':')
            && (|h| + 1 < |s| && s[|h|] == '.' ==> s[|h| + 1] == ':')
            && forall i :: 0 <= i < |h| ==>
                 !('A' <= h[i] <= 'Z') && h[i] as int == s[i] as int + if 'A' <= s[i] <= 'Z' then 32 else 0
  {
    hide Lower, LowerChar, HostEnd;
    var k := HostEnd(s);
    if Accepts(s) {
      var host := StripDot(s[..k]);
      StripDotKeepsValid(s[..k]);
      LowerByCode(host);
      assert k < |s| ==> s[k..][0] == s[k];
      assert host[|host| - 1] == s[|host| - 1];
    }
  }

  /** By character codes: the pieces into which the accepted values split. */
  lemma {:induction false} PiecesByCode(h: string, p: string)
    ensures ValidHost(h) <==>
              && 0 < |h| && h != "."
              && (forall i :: 0 < i < |h| ==> !(h[i - 1] == '.' && h[i] == '.'))
              && (if h[0] == '[' then
                    && 2 <= |h| && h[|h| - 1] == ']'
                    && forall i :: 0 < i < |h| - 1 ==>
                         || (0x30 <= h[i] as int <= 0x39) || (0x41 <= h[i] as int <= 0x5A)
                         || (0x61 <= h[i] as int <= 0x7A) || h[i] in "-._~!$&'()*+,;=:"
                  else
                    forall i :: 0 <= i < |h| ==>
                      || (0x30 <= h[i] as int <= 0x39) || (0x41 <= h[i] as int <= 0x5A)
                      || (0x61 <= h[i] as int <= 0x7A) || h[i] in "-._~!$&'()*+,;=%")
    ensures ValidPort(p) <==>
              || p == ""
              || (p[0] as int == 0x3A && (forall i :: 0 < i < |p| ==> 0x30 <= p[i] as int <= 0x39)
                  && Decimal(p[1..]) <= 65535)
  {
    forall c: char
      ensures NameChar(c) <==>
                || (0x30 <= c as int <= 0x39) || (0x41 <= c as int <= 0x5A) || (0x61 <= c as int <= 0x7A)
                || c in "-._~!$&'()*+,;=%"
      ensures LiteralChar(c) <==>
                || (0x30 <= c as int <= 0x39) || (0x41 <= c as int <= 0x5A) || (0x61 <= c as int <= 0x7A)
                || c in "-._~!$&'()*+,;=:"
    {
    }
  }

  lemma {:induction false} StripDotKeepsValid(h: string)
    requires ValidHost(h)
    ensures ValidHost(StripDot(h)) && StripDot(h)[|StripDot(h)| - 1] != '.'
  {
    var r := StripDot(h);
    assert forall i :: 0 <= i < |r| ==> r[i] == h[i];
    if |h| == 1 {
      assert h == [h[0]];
    }
    if 1 < |h| && h[|h| - 1] == '.' {
      assert h[|h| - 2] != '.';
    }
  }

  lemma {:induction false} LowerCharKept(c: char)
    ensures NameChar(c) ==> NameChar(LowerChar(c))
    ensures LiteralChar(c) ==> LiteralChar(LowerChar(c))
    ensures LowerChar(c) == '.' <==> c == '.'
    ensures c == '[' || c == ']' ==> LowerChar(c) == c
  {
  }

  lemma {:induction false} LowerKeepsValid(h: string)
    requires ValidHost(h)
    ensures ValidHost(Lower(h))
  {
    hide NameChar, LiteralChar, LowerChar;
    var r := Lower(h);
    forall i | 0 < i < |r| ensures !(r[i - 1] == '.' && r[i] == '.') {
      assert !(h[i - 1] == '.' && h[i] == '.');
      LowerCharKept(h[i - 1]);
      LowerCharKept(h[i]);
    }
    forall i | 0 <= i < |r| ensures NameChar(h[i]) ==> NameChar(r[i])
                            ensures LiteralChar(h[i]) ==> LiteralChar(r[i]) {
      LowerCharKept(h[i]);
    }
    LowerCharKept(h[0]);
    LowerCharKept(h[|h| - 1]);
  }

  /** Accepting is a round trip: a normal form is accepted, and is its own normal form. */
  lemma {:induction false} NormalizeIdempotent(s: string)
    requires Normalize(s).Some?
    ensures Normalize(Normalize(s).value) == Normalize(s)
    ensures Normalize(s).value != ""
  {
    var h := StripDot(s[..HostEnd(s)]);
    var r := Lower(h);
    StripDotKeepsValid(s[..HostEnd(s)]);
    LowerKeepsValid(h);
    LowerIdempotent(h);
    hide ValidHost, Lower;
    assert r[..|r|] == r && r[|r|..] == "";
    SplitIsHostEnd(r, |r|);
    assert r[|r| - 1] != '.';
  }
}
