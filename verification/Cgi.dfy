/**
 Query strings, ngix_module/AIS/cgi_util.cpp: percent-decoding in place and the table of parameters.
 Strings are byte sequences; in memory they end at their first NUL.
*/
module CgiModel {
  import opened Bytes

  const EQ: byte := 61
  const AMP: byte := 38
  const PLUS: byte := 43
  const SPACE: byte := 32
  const PERCENT: byte := 37

  predicate Sep(c: byte) { c == EQ || c == AMP }

  /** c & 0xdf, for a positive char. */
  function Upper(c: byte): byte { if (c / 32) % 2 == 1 then c - 32 else c }

  /** One digit as x2c reads it: char is signed, and the result is truncated to a char. */
  function Digit(c: byte): int {
    var what := if c < 128 then c as int else c - 256;
    if what >= 65 then Upper(c) - 65 + 10 else what - 48
  }

  function X2c(a: byte, b: byte): byte { (16 * Digit(a) + Digit(b)) % 256 }

  predicate IsHex(c: byte) { 48 <= c <= 57 || 65 <= c <= 70 || 97 <= c <= 102 }

  function HexValue(c: byte): (v: nat)
    requires IsHex(c)
    ensures v < 16
  {
    if c <= 57 then c - 48 else if c <= 70 then c - 55 else c - 87
  }

  lemma DigitIsHex(c: byte)
    requires IsHex(c)
    ensures Digit(c) == HexValue(c)
  {
  }

  /** A byte that is no letter counts by its distance from "0", and what is left of that in a char. */
  lemma DigitOther(c: byte)
    requires c < 65 || c >= 128
    ensures (Digit(c) - (c - 48)) % 256 == 0
  {
  }

  lemma X2cIsHex(a: byte, b: byte)
    requires IsHex(a) && IsHex(b)
    ensures X2c(a, b) == 16 * HexValue(a) + HexValue(b)
  {
    hide Digit, HexValue;
    DigitIsHex(a);
    DigitIsHex(b);
    FitsAByte(16 * HexValue(a) + HexValue(b));
  }

  lemma FitsAByte(x: int)
    requires 0 <= x < 256
    ensures x % 256 == x
  {
  }

  /** Every percent sign has the two characters of its escape. */
  predicate Complete(s: seq<byte>) {
    if s == [] then true
    else if s[0] == PERCENT then |s| >= 3 && Complete(s[3..])
    else Complete(s[1..])
  }

  function Unescape(s: seq<byte>): seq<byte>
    requires Complete(s)
  {
    if s == [] then []
    else if s[0] == PERCENT then [X2c(s[1], s[2])] + Unescape(s[3..])
    else [s[0]] + Unescape(s[1..])
  }

  lemma UnescapeAt(s: seq<byte>, y: nat)
    requires y <= |s| && Complete(s[y..])
    ensures y == |s| ==> Unescape(s[y..]) == []
    ensures y < |s| && s[y] == PERCENT ==>
      y + 3 <= |s| && Complete(s[y + 3..]) && Unescape(s[y..]) == [X2c(s[y + 1], s[y + 2])] + Unescape(s[y + 3..])
    ensures y < |s| && s[y] != PERCENT ==> Complete(s[y + 1..]) && Unescape(s[y..]) == [s[y]] + Unescape(s[y + 1..])
  {
    hide X2c;
    if y < |s| {
      assert s[y..][1..] == s[y + 1..];
      if s[y] == PERCENT {
        assert s[y..][3..] == s[y + 3..];
      }
    }
  }

  /**
     unescape_url: the string in memory becomes its decoding; the write index x never passes the read
     index y, so nothing is overwritten before it is read.
  */
  method UnescapeUrl(url: array<byte>, ghost n: nat)
    requires n < url.Length && url[n] == 0 && 0 !in url[..n] && Complete(url[..n])
    modifies url
    ensures CString(url[..]) == CString(Unescape(old(url[..n])))
    ensures |Unescape(old(url[..n]))| <= n
  {
    hide Complete, Unescape, X2c, Length, CString;
    ghost var s := url[..n];
    ghost var all := Unescape(s);
    var x, y := 0, 0;
    assert s[0..] == s;
    while url[y] != 0
      invariant 0 <= x <= y <= n
      invariant Complete(s[y..]) && url[..x] + Unescape(s[y..]) == all
      invariant forall k :: y <= k <= n ==> url[k] == old(url[k])
      decreases n - y
    {
      UnescapeAt(s, y);
      ghost var done := url[..x];
      url[x] := url[y];
      if url[x] == PERCENT {
        url[x] := X2c(url[y + 1], url[y + 2]);
        y := y + 2;
      }
      x, y := x + 1, y + 1;
      assert url[..x] == done + [url[x - 1]];
    }
    UnescapeAt(s, n);
    url[x] := 0;
    assert url[..x] == all;
    TerminatedAt(url[..], all);
  }

  lemma TerminatedAt(m: seq<byte>, s: seq<byte>)
    requires |s| < |m| && m[|s|] == 0 && m[..|s|] == s
    ensures CString(m) == CString(s)
  {
    var k := Length(s);
    assert forall j :: 0 <= j < |s| ==> m[j] == m[..|s|][j];
    LengthIs(m, k);
    assert m[..k] == s[..k];
  }

  // ---------- the table of parameters ----------

  type Text = seq<byte>
  type Table = map<Text, Text>

  datatype Result = Result(rc: int, param: Table)

  /** Where the piece that starts at i ends. */
  function PieceEnd(s: seq<byte>, i: nat): (e: nat)
    requires i <= |s|
    ensures i <= e <= |s| && (e < |s| ==> Sep(s[e]))
    ensures forall j :: i <= j < e ==> !Sep(s[j])
    decreases |s| - i
  {
    if i == |s| || Sep(s[i]) then i else PieceEnd(s, i + 1)
  }

  /** Where the separators before a name end. */
  function SepsEnd(s: seq<byte>, i: nat): (k: nat)
    requires i <= |s|
    ensures i <= k <= |s| && (k < |s| ==> !Sep(s[k]))
    ensures forall j :: i <= j < k ==> Sep(s[j])
    decreases |s| - i
  {
    if i == |s| || !Sep(s[i]) then i else SepsEnd(s, i + 1)
  }

  /** From i on, every escape is complete within its own piece. */
  predicate Escaped(s: seq<byte>, i: nat)
    decreases |s| - i
  {
    if i >= |s| then true
    else if s[i] == PERCENT then i + 3 <= |s| && !Sep(s[i + 1]) && !Sep(s[i + 2]) && Escaped(s, i + 3)
    else Escaped(s, i + 1)
  }

  function Blank(c: byte): byte { if c == PLUS then SPACE else c }

  function Blanks(s: seq<byte>): seq<byte> { seq(|s|, k requires 0 <= k < |s| => Blank(s[k])) }

  /** A piece as Map_Cgi_Params reads it: pluses are spaces, escapes are decoded, a NUL ends it. */
  function Decode(piece: seq<byte>): Text
    requires Complete(Blanks(piece))
  {
    CString(Unescape(Blanks(piece)))
  }

  lemma {:induction false} BlanksComplete(s: seq<byte>)
    requires Complete(s)
    ensures Complete(Blanks(s))
    decreases |s|
  {
    if s != [] {
      var n := if s[0] == PERCENT then 3 else 1;
      BlanksComplete(s[n..]);
      assert Blanks(s)[n..] == Blanks(s[n..]);
    }
  }

  /** A piece of an escaped string is complete, and what follows it is escaped. */
  lemma {:induction false} PieceComplete(s: seq<byte>, i: nat)
    requires i <= |s| && Escaped(s, i)
    ensures Complete(s[i..PieceEnd(s, i)]) && Escaped(s, PieceEnd(s, i)) && Escaped(s, PieceEnd(s, i) + 1)
    decreases |s| - i
  {
    var e := PieceEnd(s, i);
    if i < e {
      var n := if s[i] == PERCENT then 3 else 1;
      assert n == 3 ==> PieceEnd(s, i + 1) == PieceEnd(s, i + 2) == PieceEnd(s, i + 3);
      PieceComplete(s, i + n);
      assert s[i..e][n..] == s[i + n..e];
    }
  }

  lemma {:induction false} SepsEscaped(s: seq<byte>, i: nat)
    requires i <= |s| && Escaped(s, i)
    ensures Escaped(s, SepsEnd(s, i))
    decreases |s| - i
  {
    if i < SepsEnd(s, i) {
      SepsEscaped(s, i + 1);
    }
  }

  lemma Ready(s: seq<byte>, i: nat)
    requires i <= |s| && Escaped(s, i)
    ensures Complete(Blanks(s[i..PieceEnd(s, i)])) && Escaped(s, PieceEnd(s, i) + 1)
  {
    PieceComplete(s, i);
    BlanksComplete(s[i..PieceEnd(s, i)]);
  }

  /** What Map_Cgi_Params makes of the string from index i on, when a name comes next. */
  function ParseName(s: seq<byte>, i: nat, m: Table): Result
    requires Escaped(s, i)
    decreases |s| - i
  {
    if i >= |s| then Result(0, m) else
    SepsEscaped(s, i);
    var k := SepsEnd(s, i);
    Ready(s, k);
    var e := PieceEnd(s, k);
    var name := Decode(s[k..e]);
    var m' := if name == [] then m else m[name := []];
    if e == |s| || (s[e] != EQ && e + 1 < |s|) then Result(-3, m')
    else if e + 1 == |s| then Result(0, m')
    else ParseValue(s, e + 1, name, m)
  }

  /** And when the value of a name comes next. */
  function ParseValue(s: seq<byte>, i: nat, name: Text, m: Table): Result
    requires i < |s| && Escaped(s, i)
    decreases |s| - i
  {
    Ready(s, i);
    var e := PieceEnd(s, i);
    ParseName(s, e + 1, if name == [] then m else m[name := Decode(s[i..e])])
  }

  /** Nothing is ever unbound, and the empty name is never bound. */
  lemma {:induction false} NamesOnlyGrow(s: seq<byte>, i: nat, m: Table)
    requires Escaped(s, i)
    ensures m.Keys <= ParseName(s, i, m).param.Keys && ([] !in m ==> [] !in ParseName(s, i, m).param)
    decreases |s| - i, 1
  {
    if i < |s| {
      SepsEscaped(s, i);
      var k := SepsEnd(s, i);
      Ready(s, k);
      var e := PieceEnd(s, k);
      if e + 1 < |s| && s[e] == EQ {
        NamesOnlyGrowValue(s, e + 1, Decode(s[k..e]), m);
      }
    }
  }

  lemma {:induction false} NamesOnlyGrowValue(s: seq<byte>, i: nat, name: Text, m: Table)
    requires i < |s| && Escaped(s, i)
    ensures m.Keys <= ParseValue(s, i, name, m).param.Keys && ([] !in m ==> [] !in ParseValue(s, i, name, m).param)
    decreases |s| - i, 0
  {
    Ready(s, i);
    var e := PieceEnd(s, i);
    NamesOnlyGrow(s, e + 1, if name == [] then m else m[name := Decode(s[i..e])]);
  }

  datatype Token = Name | Value

  ghost predicate Resumable(s: seq<byte>, i: nat, token: Token) {
    Escaped(s, i) && (token.Value? ==> i < |s|)
  }

  ghost function Resumed(s: seq<byte>, i: nat, token: Token, name: Text, m: Table): Result
    requires Resumable(s, i, token)
  {
    if token.Name? then ParseName(s, i, m) else ParseValue(s, i, name, m)
  }

  method Strlen(a: array<byte>) returns (n: nat)
    ensures n == Length(a[..])
  {
    n := 0;
    while n < a.Length && a[n] != 0
      invariant n <= a.Length && forall k :: 0 <= k < n ==> a[k] != 0
    {
      n := n + 1;
    }
    LengthIs(a[..], n);
  }

  /** Skip the separators before a name. */
  method SkipSeps(buffer: array<byte>, from: nat, len: nat) returns (i: nat)
    requires from <= len <= buffer.Length
    ensures i == SepsEnd(buffer[..len], from)
  {
    i := from;
    ghost var s := buffer[..len];
    while i < len && (buffer[i] == EQ || buffer[i] == AMP)
      invariant from <= i <= len && SepsEnd(s, from) == SepsEnd(s, i)
    {
      assert s[i] == buffer[i];
      i := i + 1;
    }
    assert i < len ==> s[i] == buffer[i];
  }

  /** Copy one piece to the lexeme, with spaces for pluses. */
  method ReadLexeme(buffer: array<byte>, from: nat, len: nat, lexeme: array<byte>) returns (i: nat)
    requires len < buffer.Length && lexeme.Length == len + 1 && from <= len && lexeme != buffer
    modifies lexeme
    ensures i == PieceEnd(buffer[..len], from)
    ensures lexeme[..i - from] == Blanks(buffer[..len][from..i]) && lexeme[i - from] == 0
  {
    ghost var s := buffer[..len];
    var j := 0;
    i := from;
    while buffer[i] != EQ && buffer[i] != AMP && i < len
      invariant i == from + j <= len && PieceEnd(s, from) == PieceEnd(s, i)
      invariant forall k :: 0 <= k < j ==> lexeme[k] == Blank(s[from + k])
      decreases len - i
    {
      assert s[i] == buffer[i];
      lexeme[j] := if buffer[i] == PLUS then SPACE else buffer[i];
      i := i + 1;
      j := j + 1;
    }
    assert i < len ==> s[i] == buffer[i];
    lexeme[j] := 0;
  }

  /** Read one piece and decode it. */
  method ReadPiece(buffer: array<byte>, from: nat, len: nat, lexeme: array<byte>) returns (i: nat, text: Text)
    requires len < buffer.Length && lexeme.Length == len + 1 && from <= len && lexeme != buffer
    requires 0 !in buffer[..len] && Escaped(buffer[..len], from)
    modifies lexeme
    ensures i == PieceEnd(buffer[..len], from) && Complete(Blanks(buffer[..len][from..i]))
    ensures text == Decode(buffer[..len][from..i])
  {
    hide Escaped, Complete, Unescape, Length;
    ghost var s := buffer[..len];
    Ready(s, from);
    i := ReadLexeme(buffer, from, len, lexeme);
    assert forall k :: 0 <= k < i - from ==> lexeme[k] == Blank(s[from + k]) && s[from + k] in s;
    UnescapeUrl(lexeme, i - from);
    var n := Strlen(lexeme);
    text := lexeme[..n];
  }

  /** Map_Cgi_Params, for memory without bound; the string ends at the first NUL. */
  method MapCgiParams(param: Table, buffer: array?<byte>) returns (r: Result)
    requires buffer != null ==> 0 in buffer[..] && Escaped(CString(buffer[..]), 0)
    ensures buffer == null ==> r == Result(-1, param)
    ensures buffer != null ==> r == ParseName(CString(buffer[..]), 0, param)
  {
    hide Escaped, ParseName;
    if buffer == null {
      return Result(-1, param);
    }
    var len := Strlen(buffer);
    r := ReadParams(param, buffer, len);
  }

  /** Its loop over the pieces. */
  method ReadParams(param: Table, buffer: array<byte>, len: nat) returns (r: Result)
    requires len < buffer.Length && buffer[len] == 0 && 0 !in buffer[..len] && Escaped(buffer[..len], 0)
    ensures r == ParseName(buffer[..len], 0, param)
  {
    hide Escaped, Complete, Decode, Blanks, SepsEnd, PieceEnd;
    var lexeme := new byte[len + 1];
    ghost var s := buffer[..len];
    var i, token, name, m := 0, Name, [], param;
    while i < len
      invariant Resumable(s, i, token) && Resumed(s, i, token, name, m) == ParseName(s, 0, param)
      decreases len - i
    {
      if token == Name {
        SepsEscaped(s, i);
        i := SkipSeps(buffer, i, len);
      }
      Ready(s, i);
      var text;
      i, text := ReadPiece(buffer, i, len, lexeme);
      assert i < len ==> s[i] == buffer[i];
      if token == Name {
        name := text;
        if buffer[i] != EQ || i == len - 1 {
          if name != [] {
            m := m[name := []];
          }
          if i != len - 1 {
            return Result(-3, m);
          }
        } else {
          token := Value;
        }
      } else {
        if name != [] {
          m := m[name := text];
        }
        token := Name;
      }
      i := i + 1;
    }
    r := Result(0, m);
  }

  // ---------- the round trip ----------

  /** A byte that may stand for itself. */
  predicate Literal(c: byte) { c != PERCENT && c != PLUS && c != EQ && c != AMP && c != 0 }

  /**
     e is a form-encoding of w: bytes stand for themselves where they may, a space may be a plus, and
     any byte may be escaped with hexadecimal digits of either case (section 2.1 of RFC 3986,
     section 17.13.4.1 of HTML 4.01).
  */
  ghost predicate Encodes(e: seq<byte>, w: Text)
    decreases |w|
  {
    if w == [] then e == [] else
    || (e != [] && e[0] == w[0] && Literal(w[0]) && Encodes(e[1..], w[1..]))
    || (e != [] && e[0] == PLUS && w[0] == SPACE && Encodes(e[1..], w[1..]))
    || (|e| >= 3 && e[0] == PERCENT && IsHex(e[1]) && IsHex(e[2]) && 16 * HexValue(e[1]) + HexValue(e[2]) == w[0] && Encodes(e[3..], w[1..]))
  }

  /** The bytes an encoding uses for the first byte of its text. */
  ghost function Head(e: seq<byte>, w: Text): (n: nat)
    requires Encodes(e, w) && w != []
    ensures (n == 1 || n == 3) && n <= |e| && Encodes(e[n..], w[1..])
    ensures n == 1 ==> e[0] != PERCENT && !Sep(e[0]) && e[0] != 0 && Blank(e[0]) == w[0]
    ensures n == 3 ==> e[0] == PERCENT && IsHex(e[1]) && IsHex(e[2]) && X2c(e[1], e[2]) == w[0]
  {
    if e[0] == PERCENT then
      X2cIsHex(e[1], e[2]);
      3
    else 1
  }

  /** An encoding of any text without NUL decodes to it, and holds no separator and no NUL. */
  lemma {:induction false} EncodesDecodes(e: seq<byte>, w: Text)
    requires Encodes(e, w) && 0 !in w
    ensures Complete(Blanks(e)) && Unescape(Blanks(e)) == w
    ensures forall c :: c in e ==> !Sep(c) && c != 0
    decreases |w|
  {
    hide X2c;
    if w != [] {
      var n := Head(e, w);
      EncodesDecodes(e[n..], w[1..]);
      hide Encodes;
      assert Blanks(e)[n..] == Blanks(e[n..]);
      assert e == e[..n] + e[n..];
      assert n == 3 ==> Blanks(e)[..3] == e[..3];
    }
  }

  lemma DecodeEncoded(e: seq<byte>, w: Text)
    requires Encodes(e, w) && 0 !in w
    ensures Complete(Blanks(e)) && Decode(e) == w
    ensures forall c :: c in e ==> !Sep(c) && c != 0
  {
    EncodesDecodes(e, w);
    LengthIs(w, |w|);
  }

  /** An encoding in the middle of a string keeps it escaped. */
  lemma {:induction false} EncodesEscaped(s: seq<byte>, i: nat, e: seq<byte>, w: Text)
    requires i + |e| <= |s| && s[i..i + |e|] == e && Encodes(e, w) && Escaped(s, i + |e|)
    ensures Escaped(s, i)
    decreases |w|
  {
    if w != [] {
      var n := Head(e, w);
      hide Encodes;
      assert s[i..i + |e|][n..] == s[i + n..i + |e|];
      EncodesEscaped(s, i + n, e[n..], w[1..]);
      assert s[i] == e[0] && (n == 3 ==> s[i + 1] == e[1] && s[i + 2] == e[2]);
    }
  }

  lemma {:induction false} PieceEndIs(s: seq<byte>, i: nat, e: nat)
    requires i <= e <= |s| && (e < |s| ==> Sep(s[e])) && forall j :: i <= j < e ==> !Sep(s[j])
    ensures PieceEnd(s, i) == e
    decreases e - i
  {
    if i < e {
      PieceEndIs(s, i + 1, e);
    }
  }

  datatype Pair = Pair(name: Text, value: Text)

  function Join(es: seq<Pair>): seq<byte> {
    if es == [] then [] else
    es[0].name + [EQ] + es[0].value + if |es| == 1 then [] else [AMP] + Join(es[1..])
  }

  /** Assignments in order: a later one of the same name wins. */
  function Bind(m: Table, ps: seq<Pair>): Table
    decreases |ps|
  {
    if ps == [] then m else Bind(m[ps[0].name := ps[0].value], ps[1..])
  }

  ghost predicate EncodesAll(es: seq<Pair>, ps: seq<Pair>) {
    && |es| == |ps|
    && forall k :: 0 <= k < |ps| ==> EncodesPair(es[k], ps[k])
  }

  ghost predicate EncodesPair(e: Pair, p: Pair) {
    && Encodes(e.name, p.name) && Encodes(e.value, p.value)
    && p.name != [] && 0 !in p.name && 0 !in p.value
  }

  /** From index i on, s is the given pairs joined. */
  ghost predicate Joined(s: seq<byte>, i: nat, es: seq<Pair>)
    decreases |es|
  {
    if es == [] then i == |s| else
    var a := i + |es[0].name|;
    var b := a + 1 + |es[0].value|;
    && At(s, i, es[0]) && (b < |s| ==> s[b] == AMP)
    && (if |es| == 1 then b == |s| else b < |s| && Joined(s, b + 1, es[1..]))
  }

  ghost predicate At(s: seq<byte>, i: nat, e: Pair) {
    var a := i + |e.name|;
    var b := a + 1 + |e.value|;
    b <= |s| && s[i..a] == e.name && s[a] == EQ && s[a + 1..b] == e.value
  }

  lemma AtHead(before: seq<byte>, e: Pair, rest: seq<byte>)
    ensures var s := before + (e.name + [EQ] + e.value) + rest; var b := |before| + |e.name| + 1 + |e.value|;
      At(s, |before|, e) && |s| == b + |rest| && (rest != [] ==> s[b] == rest[0])
  {
    var s := before + (e.name + [EQ] + e.value) + rest;
    var a := |before| + |e.name|;
    assert s == before + e.name + ([EQ] + e.value + rest);
    assert s[|before|..a] == e.name;
    assert s[a + 1..a + 1 + |e.value|] == e.value;
  }

  lemma Regroup(a: seq<byte>, b: seq<byte>, c: seq<byte>, d: seq<byte>)
    ensures a + (b + (c + d)) == a + b + (c + d) == (a + b + c) + d
  {
  }

  lemma JoinedStep(s: seq<byte>, i: nat, es: seq<Pair>)
    requires es != [] && At(s, i, es[0])
    requires var b := i + |es[0].name| + 1 + |es[0].value|;
      if |es| == 1 then b == |s| else b < |s| && s[b] == AMP && Joined(s, b + 1, es[1..])
    ensures Joined(s, i, es)
  {
    hide At;
  }

  /** Where the rest of the pairs starts. */
  lemma JoinSplits(before: seq<byte>, es: seq<Pair>)
    requires es != []
    ensures At(before + Join(es), |before|, es[0])
    ensures var s := before + Join(es); var b := |before| + |es[0].name| + 1 + |es[0].value|;
      if |es| == 1 then b == |s|
      else b < |s| && s[b] == AMP && s == (before + (es[0].name + [EQ] + es[0].value) + [AMP]) + Join(es[1..])
  {
    var first := es[0].name + [EQ] + es[0].value;
    if |es| == 1 {
      assert Join(es) == first + [];
      hide Join, At;
      assert before + Join(es) == before + first + [];
      AtHead(before, es[0], []);
    } else {
      var tail := Join(es[1..]);
      assert Join(es) == first + ([AMP] + tail);
      hide Join, At;
      Regroup(before, first, [AMP], tail);
      AtHead(before, es[0], [AMP] + tail);
    }
  }

  lemma JoinHead(s: seq<byte>, before: seq<byte>, es: seq<Pair>)
    requires es != [] && s == before + Join(es)
    ensures var b := |before| + |es[0].name| + 1 + |es[0].value|;
      At(s, |before|, es[0]) && if |es| == 1 then b == |s| else b < |s| && s[b] == AMP
  {
    hide Join, At;
    JoinSplits(before, es);
  }

  lemma JoinRest(s: seq<byte>, before: seq<byte>, es: seq<Pair>) returns (before': seq<byte>)
    requires |es| > 1 && s == before + Join(es)
    ensures |before'| == |before| + |es[0].name| + 1 + |es[0].value| + 1 && s == before' + Join(es[1..])
  {
    hide Join, At;
    JoinSplits(before, es);
    before' := before + (es[0].name + [EQ] + es[0].value) + [AMP];
  }

  lemma {:induction false} JoinIsJoined(s: seq<byte>, before: seq<byte>, es: seq<Pair>)
    requires s == before + Join(es)
    ensures Joined(s, |before|, es)
    decreases |es|
  {
    if es != [] {
      hide Join, At, Joined;
      JoinHead(s, before, es);
      if |es| > 1 {
        var before' := JoinRest(s, before, es);
        JoinIsJoined(s, before', es[1..]);
      }
      JoinedStep(s, |before|, es);
    }
  }

  /** Byte by byte, a pair at index i. */
  lemma PairBytes(s: seq<byte>, i: nat, e: Pair)
    requires At(s, i, e) && (forall c :: c in e.name || c in e.value ==> !Sep(c) && c != 0)
    ensures var a := i + |e.name|; var b := a + 1 + |e.value|;
      forall j :: i <= j < b ==> s[j] != 0 && (j != a ==> !Sep(s[j]))
  {
    var a := i + |e.name|;
    var b := a + 1 + |e.value|;
    forall j | i <= j < b ensures s[j] != 0 && (j != a ==> !Sep(s[j])) {
      assert j < a ==> s[j] == e.name[j - i] && e.name[j - i] in e.name;
      assert j > a ==> s[j] == e.value[j - a - 1] && e.value[j - a - 1] in e.value;
    }
  }

  /** The two pieces of a pair at index i end where they should, and decode to its name and value. */
  lemma PairPieces(s: seq<byte>, i: nat, e: Pair, p: Pair)
    requires At(s, i, e) && EncodesPair(e, p)
    ensures var a := i + |e.name|; var b := a + 1 + |e.value|;
      && i < a < b <= |s| && s[a] == EQ && p.name != []
      && SepsEnd(s, i) == i && PieceEnd(s, i) == a && (b == |s| || Sep(s[b]) ==> PieceEnd(s, a + 1) == b)
      && Complete(Blanks(s[i..a])) && Decode(s[i..a]) == p.name
      && Complete(Blanks(s[a + 1..b])) && Decode(s[a + 1..b]) == p.value
      && forall j :: i <= j < b ==> s[j] != 0
  {
    DecodeEncoded(e.name, p.name);
    DecodeEncoded(e.value, p.value);
    assert e.name != [];
    hide Decode, Encodes, Blanks, Complete;
    PairBytes(s, i, e);
    var a := i + |e.name|;
    var b := a + 1 + |e.value|;
    PieceEndIs(s, i, a);
    if b == |s| || Sep(s[b]) {
      PieceEndIs(s, a + 1, b);
    }
  }

  lemma PairEscaped(s: seq<byte>, i: nat, e: Pair, p: Pair)
    requires At(s, i, e) && EncodesPair(e, p)
    requires var b := i + |e.name| + 1 + |e.value|; Escaped(s, b) && (b < |s| ==> s[b] == AMP)
    ensures Escaped(s, i) && Escaped(s, i + |e.name| + 1) && Escaped(s, i + |e.name| + 1 + |e.value| + 1)
  {
    hide Encodes;
    EncodesEscaped(s, i + |e.name| + 1, e.value, p.value);
    EncodesEscaped(s, i, e.name, p.name);
  }

  lemma NameRead(s: seq<byte>, i: nat, a: nat, name: Text, m: Table)
    requires i < a < |s| && s[a] == EQ && Escaped(s, i) && Escaped(s, a + 1)
    requires SepsEnd(s, i) == i && PieceEnd(s, i) == a && Complete(Blanks(s[i..a])) && Decode(s[i..a]) == name != []
    ensures ParseName(s, i, m) == if a + 1 == |s| then Result(0, m[name := []]) else ParseValue(s, a + 1, name, m)
  {
    hide SepsEnd, PieceEnd, Decode, Blanks, Complete, Escaped;
    SepsEscaped(s, i);
    Ready(s, i);
    hide ParseValue;
  }

  lemma ValueRead(s: seq<byte>, i: nat, b: nat, name: Text, value: Text, m: Table)
    requires i < |s| && i <= b <= |s| && Escaped(s, i) && Escaped(s, b + 1) && name != []
    requires PieceEnd(s, i) == b && Complete(Blanks(s[i..b])) && Decode(s[i..b]) == value
    ensures ParseValue(s, i, name, m) == ParseName(s, b + 1, m[name := value])
  {
    hide SepsEnd, PieceEnd, Decode, Blanks, Complete, Escaped;
    Ready(s, i);
  }

  /** One pair at index i. */
  lemma PairParsed(s: seq<byte>, i: nat, e: Pair, p: Pair, m: Table)
    requires At(s, i, e) && EncodesPair(e, p)
    requires var b := i + |e.name| + 1 + |e.value|; Escaped(s, b) && (b < |s| ==> s[b] == AMP)
    ensures var b := i + |e.name| + 1 + |e.value|;
      Escaped(s, b + 1) && Escaped(s, i) && ParseName(s, i, m) == ParseName(s, b + 1, m[p.name := p.value])
  {
    hide At, EncodesPair, SepsEnd, PieceEnd, Decode, Blanks, Complete, Escaped, ParseName, ParseValue;
    PairPieces(s, i, e, p);
    PairEscaped(s, i, e, p);
    var a, b := i + |e.name|, i + |e.name| + 1 + |e.value|;
    if e.value == [] {
      NoValue(e, p);
    }
    NothingLeft(s, m[p.name := p.value]);
    NameRead(s, i, a, p.name, m);
    if a + 1 < |s| {
      ValueRead(s, a + 1, b, p.name, p.value, m);
    }
  }

  lemma NoValue(e: Pair, p: Pair)
    requires EncodesPair(e, p) && e.value == []
    ensures p.value == []
  {
  }

  lemma EncodesRest(es: seq<Pair>, ps: seq<Pair>)
    requires EncodesAll(es, ps)
    ensures |es| == |ps| && (es != [] ==> EncodesPair(es[0], ps[0]) && EncodesAll(es[1..], ps[1..]))
  {
    hide EncodesPair;
  }

  lemma JoinedHead(s: seq<byte>, i: nat, es: seq<Pair>)
    requires Joined(s, i, es)
    ensures es == [] ==> i == |s|
    ensures es != [] ==> var b := i + |es[0].name| + 1 + |es[0].value|;
      && At(s, i, es[0]) && b <= |s| && (|es| == 1 ==> b == |s|)
      && (|es| > 1 ==> b < |s| && s[b] == AMP && Joined(s, b + 1, es[1..]))
  {
  }

  /** The round trip, from index i of a string on. */
  lemma {:induction false} JoinParsed(s: seq<byte>, i: nat, es: seq<Pair>, ps: seq<Pair>, m: Table)
    requires Joined(s, i, es) && EncodesAll(es, ps)
    ensures i <= |s| && Escaped(s, i) && ParseName(s, i, m) == Result(0, Bind(m, ps))
    decreases |es|
  {
    hide EncodesPair, EncodesAll, ParseName, ParseValue, Escaped, At, Joined;
    JoinedHead(s, i, es);
    EncodesRest(es, ps);
    NothingLeft(s, Bind(m, ps));
    if es != [] {
      var b := i + |es[0].name| + 1 + |es[0].value|;
      if |es| > 1 {
        JoinParsed(s, b + 1, es[1..], ps[1..], m[ps[0].name := ps[0].value]);
        SepEscaped(s, b);
      } else {
        OnePair(m, ps);
      }
      PairParsed(s, i, es[0], ps[0], m);
    }
  }

  lemma OnePair(m: Table, ps: seq<Pair>)
    requires |ps| == 1
    ensures Bind(m, ps) == m[ps[0].name := ps[0].value]
  {
    assert ps[1..] == [];
  }

  lemma {:induction false} JoinedHasNoNul(s: seq<byte>, i: nat, es: seq<Pair>, ps: seq<Pair>)
    requires Joined(s, i, es) && EncodesAll(es, ps)
    ensures forall j :: i <= j < |s| ==> s[j] != 0
    decreases |es|
  {
    hide EncodesPair, EncodesAll, At;
    if es != [] {
      EncodesRest(es, ps);
      PairPieces(s, i, es[0], ps[0]);
      if |es| > 1 {
        JoinedHasNoNul(s, i + |es[0].name| + 1 + |es[0].value| + 1, es[1..], ps[1..]);
      }
    }
  }

  lemma SepEscaped(s: seq<byte>, b: nat)
    requires b < |s| && Sep(s[b]) && Escaped(s, b + 1)
    ensures Escaped(s, b)
  {
  }

  lemma NothingLeft(s: seq<byte>, m: Table)
    ensures forall i: nat :: i >= |s| ==> Escaped(s, i) && ParseName(s, i, m) == Result(0, m)
  {
  }

  /**
     Every list of pairs with non-empty names and no NUL bytes, however it is encoded: the query string is
     a C string, and Map_Cgi_Params returns 0 with exactly those bindings, the last of a name winning.
  */
  lemma QueryRoundTrip(es: seq<Pair>, ps: seq<Pair>, m: Table)
    requires EncodesAll(es, ps)
    ensures 0 !in Join(es) && Escaped(Join(es), 0)
    ensures ParseName(Join(es), 0, m) == Result(0, Bind(m, ps))
  {
    assert [] + Join(es) == Join(es);
    JoinIsJoined(Join(es), [], es);
    JoinParsed(Join(es), 0, es, ps, m);
    JoinedHasNoNul(Join(es), 0, es, ps);
    assert Join(es)[0..] == Join(es);
  }

  /** What the bindings are: a name in no pair keeps what it had. */
  lemma {:induction false} BindKeeps(m: Table, ps: seq<Pair>, name: Text)
    requires forall k :: 0 <= k < |ps| ==> ps[k].name != name
    ensures name in Bind(m, ps) <==> name in m
    ensures name in m ==> Bind(m, ps)[name] == m[name]
    decreases |ps|
  {
    if ps != [] {
      BindKeeps(m[ps[0].name := ps[0].value], ps[1..], name);
    }
  }

  /** And the last pair of a name gives its value. */
  lemma {:induction false} BindLast(m: Table, ps: seq<Pair>, k: nat)
    requires k < |ps| && forall j :: k < j < |ps| ==> ps[j].name != ps[k].name
    ensures ps[k].name in Bind(m, ps) && Bind(m, ps)[ps[k].name] == ps[k].value
    decreases |ps|
  {
    var m' := m[ps[0].name := ps[0].value];
    if k == 0 {
      BindKeeps(m', ps[1..], ps[0].name);
    } else {
      BindLast(m', ps[1..], k - 1);
    }
  }

  // ---------- every text has an encoding ----------

  function HexDigit(v: nat): (c: byte)
    requires v < 16
    ensures IsHex(c) && HexValue(c) == v
  {
    if v < 10 then 48 + v else 55 + v
  }

  predicate Unreserved(c: byte) {
    48 <= c <= 57 || 65 <= c <= 90 || 97 <= c <= 122 || c == 45 || c == 46 || c == 95 || c == 126
  }

  /** The usual encoder. */
  function FormEncode(w: Text): seq<byte> {
    if w == [] then [] else
    (if Unreserved(w[0]) then [w[0]] else if w[0] == SPACE then [PLUS] else [PERCENT, HexDigit(w[0] / 16), HexDigit(w[0] % 16)])
    + FormEncode(w[1..])
  }

  lemma {:induction false} FormEncodes(w: Text)
    ensures Encodes(FormEncode(w), w)
    decreases |w|
  {
    if w != [] {
      FormEncodes(w[1..]);
      var n := if Unreserved(w[0]) || w[0] == SPACE then 1 else 3;
      assert FormEncode(w)[n..] == FormEncode(w[1..]);
    }
  }

  /** Quirks of the original: a name alone at the end is an error, and yet it is bound. */
  lemma BareNameIsAnError(w: Text, m: Table)
    requires w != [] && 0 !in w
    ensures var s := FormEncode(w);
      && Escaped(s, 0) && ParseName(s, 0, m) == Result(-3, m[w := []])
      && Escaped(s + [AMP], 0) && ParseName(s + [AMP], 0, m) == Result(0, m[w := []])
      && Escaped(s + [EQ], 0) && ParseName(s + [EQ], 0, m) == Result(0, m[w := []])
  {
    BareName(w, [], m);
    assert FormEncode(w) + [] == FormEncode(w);
    BareName(w, [AMP], m);
    BareName(w, [EQ], m);
  }

  lemma BareName(w: Text, end: seq<byte>, m: Table)
    requires w != [] && 0 !in w && (end == [] || end == [AMP] || end == [EQ])
    ensures var s := FormEncode(w) + end;
      Escaped(s, 0) && ParseName(s, 0, m) == Result(if end == [] then -3 else 0, m[w := []])
  {
    var e := FormEncode(w);
    var s := e + end;
    FormEncodes(w);
    DecodeEncoded(e, w);
    assert e != [];
    hide FormEncode, Decode, Encodes, Blanks, Complete;
    assert s[0..|e|] == e;
    assert forall j :: 0 <= j < |e| ==> s[j] in e;
    PieceEndIs(s, 0, |e|);
    EndEscaped(s, |e|);
    EncodesEscaped(s, 0, e, w);
    SepsEscaped(s, 0);
    Ready(s, 0);
  }

  lemma EndEscaped(s: seq<byte>, i: nat)
    requires i >= |s| || (i + 1 == |s| && Sep(s[i]))
    ensures Escaped(s, i)
  {
  }

  // ---------- which strings are accepted ----------

  /** A pair and the separator behind it: separators, a name, "=", a value, a separator. */
  datatype Field = Field(seps: seq<byte>, name: seq<byte>, value: seq<byte>, sep: byte)

  /** How a query string ends, behind its fields. */
  datatype Ending =
    | Nothing
    | LastPair(seps: seq<byte>, name: seq<byte>, value: seq<byte>)       // a pair without a separator behind it
    | BareThenAmp(seps: seq<byte>, name: seq<byte>)                      // a name and the final "&"
    | Bare(seps: seq<byte>, name: seq<byte>)                             // a name alone, or separators alone
    | BareThenMore(seps: seq<byte>, name: seq<byte>, more: seq<byte>)    // a name, "&", and something unread

  /** The endings that Map_Cgi_Params takes for the end of a query string. */
  predicate Accepted(e: Ending) { e.Nothing? || e.LastPair? || e.BareThenAmp? }

  predicate AllSeps(s: seq<byte>) { forall j :: 0 <= j < |s| ==> Sep(s[j]) }

  predicate NoSeps(s: seq<byte>) { forall j :: 0 <= j < |s| ==> !Sep(s[j]) }

  predicate FieldOk(f: Field) { AllSeps(f.seps) && f.name != [] && NoSeps(f.name) && NoSeps(f.value) && Sep(f.sep) }

  predicate EndingOk(e: Ending) {
    match e
    case Nothing => true
    case LastPair(seps, name, value) => AllSeps(seps) && name != [] && NoSeps(name) && NoSeps(value)
    case BareThenAmp(seps, name) => AllSeps(seps) && name != [] && NoSeps(name)
    case Bare(seps, name) => AllSeps(seps) && NoSeps(name) && seps + name != []
    case BareThenMore(seps, name, more) => AllSeps(seps) && name != [] && NoSeps(name) && more != []
  }

  ghost predicate ShapeOk(fs: seq<Field>, e: Ending) {
    (forall k :: 0 <= k < |fs| ==> FieldOk(fs[k])) && EndingOk(e)
  }

  function FieldText(f: Field): seq<byte> { f.seps + f.name + [EQ] + f.value + [f.sep] }

  /** What is behind the name of an ending. */
  function AfterName(e: Ending): seq<byte> {
    match e
    case Nothing => []
    case LastPair(_, _, value) => [EQ] + value
    case BareThenAmp(_, _) => [AMP]
    case Bare(_, _) => []
    case BareThenMore(_, _, more) => [AMP] + more
  }

  function EndingText(e: Ending): seq<byte> {
    if e.Nothing? then [] else e.seps + e.name + AfterName(e)
  }

  function QueryText(fs: seq<Field>, e: Ending): seq<byte> {
    if fs == [] then EndingText(e) else FieldText(fs[0]) + QueryText(fs[1..], e)
  }

  /** The binding a name and a value make: none when the decoded name is empty. */
  function Assign(m: Table, name: seq<byte>, value: seq<byte>): Table {
    if Complete(Blanks(name)) && Complete(Blanks(value)) && Decode(name) != [] then m[Decode(name) := Decode(value)] else m
  }

  /** What a query string binds: its fields in order, then the name it ends with, if there is one. */
  function Bound(m: Table, fs: seq<Field>, e: Ending): Table
    decreases |fs|
  {
    if fs != [] then Bound(Assign(m, fs[0].name, fs[0].value), fs[1..], e) else
    match e
    case Nothing => m
    case LastPair(_, name, value) => Assign(m, name, value)
    case BareThenAmp(_, name) => Assign(m, name, [])
    case Bare(_, name) => Assign(m, name, [])
    case BareThenMore(_, name, _) => Assign(m, name, [])
  }

  lemma EndingShape(t: seq<byte>, k: nat, a: nat) returns (e: Ending)
    requires t != [] && k == SepsEnd(t, 0) && a == PieceEnd(t, k)
    requires a < |t| && t[a] == EQ ==> PieceEnd(t, a + 1) == |t|
    ensures EndingOk(e) && EndingText(e) == t
  {
    hide SepsEnd, PieceEnd;
    var seps, name := t[..k], t[k..a];
    CutInThree(t, k, a);
    assert AllSeps(seps) && NoSeps(name) && (a < |t| ==> name != []);
    if a == |t| {
      e := Bare(seps, name);
    } else {
      CutFirst(t, a);
      if t[a] == EQ {
        assert NoSeps(t[a + 1..]);
        e := LastPair(seps, name, t[a + 1..]);
      } else if a + 1 == |t| {
        e := BareThenAmp(seps, name);
      } else {
        e := BareThenMore(seps, name, t[a + 1..]);
      }
    }
  }

  lemma CutInThree(t: seq<byte>, k: nat, a: nat)
    requires k <= a <= |t|
    ensures t == t[..k] + t[k..a] + t[a..]
  {
  }

  lemma CutFirst(t: seq<byte>, a: nat)
    requires a < |t|
    ensures t[a..] == [t[a]] + t[a + 1..]
  {
  }

  lemma FieldShape(t: seq<byte>, k: nat, a: nat, b: nat) returns (f: Field)
    requires k == SepsEnd(t, 0) && a == PieceEnd(t, k) && a < |t| && t[a] == EQ && b == PieceEnd(t, a + 1) && b < |t|
    ensures FieldOk(f) && FieldText(f) + t[b + 1..] == t
  {
    hide SepsEnd, PieceEnd;
    f := Field(t[..k], t[k..a], t[a + 1..b], t[b]);
  }

  /** Every string is some fields and one ending. */
  lemma {:induction false} EveryStringHasAShape(t: seq<byte>) returns (fs: seq<Field>, e: Ending)
    ensures ShapeOk(fs, e) && QueryText(fs, e) == t
    decreases |t|
  {
    hide SepsEnd, PieceEnd, FieldOk, EndingOk, FieldText, EndingText;
    fs := [];
    if t == [] {
      e := Nothing;
      NothingIsOk();
      return;
    }
    var k := SepsEnd(t, 0);
    var a := PieceEnd(t, k);
    if a < |t| && t[a] == EQ && PieceEnd(t, a + 1) < |t| {
      var b := PieceEnd(t, a + 1);
      fs, e := EveryStringHasAShape(t[b + 1..]);
      var f := FieldShape(t, k, a, b);
      var rest := fs;
      fs := [f] + fs;
      assert fs[1..] == rest;
    } else {
      e := EndingShape(t, k, a);
    }
  }

  lemma NothingIsOk()
    ensures EndingOk(Nothing) && EndingText(Nothing) == []
  {
  }

  lemma {:induction false} SepsEndIs(s: seq<byte>, i: nat, k: nat)
    requires i <= k <= |s| && (k < |s| ==> !Sep(s[k])) && forall j :: i <= j < k ==> Sep(s[j])
    ensures SepsEnd(s, i) == k
    decreases k - i
  {
    if i < k {
      SepsEndIs(s, i + 1, k);
    }
  }

  lemma SliceOfTail(s: seq<byte>, i: nat, x: nat, y: nat)
    requires i <= |s| && x <= y <= |s| - i
    ensures s[i..][x..y] == s[i + x..i + y] && s[i..][y..] == s[i + y..]
  {
  }

  /** Where three parts stand in a string that goes on with them at i. */
  lemma ThreeParts(s: seq<byte>, i: nat, x: seq<byte>, y: seq<byte>, z: seq<byte>)
    requires i <= |s| && s[i..] == x + y + z
    ensures |s| == i + |x| + |y| + |z|
    ensures s[i..i + |x|] == x && s[i + |x|..i + |x| + |y|] == y && s[i + |x| + |y|..] == z
  {
    var t, n := s[i..], |x| + |y|;
    assert |t| == |s| - i == n + |z|;
    assert t[..|x|] == x && t[|x|..n] == y && t[n..] == z;
    SliceOfTail(s, i, 0, |x|);
    SliceOfTail(s, i, |x|, n);
  }

  /** Where a name stands in a string that goes on with it at i. */
  lemma NameMarks(s: seq<byte>, i: nat, seps: seq<byte>, name: seq<byte>, tail: seq<byte>)
    requires i <= |s| && s[i..] == seps + name + tail && AllSeps(seps) && NoSeps(name)
    requires (name != [] || tail == []) && (tail != [] ==> Sep(tail[0]))
    ensures var k := i + |seps|; var a := k + |name|;
      SepsEnd(s, i) == k && PieceEnd(s, k) == a && |s| == a + |tail| && s[k..a] == name && s[a..] == tail
  {
    var k, a := i + |seps|, i + |seps| + |name|;
    ThreeParts(s, i, seps, name, tail);
    assert forall j :: i <= j < k ==> s[j] == s[i..k][j - i];
    assert forall j :: k <= j < a ==> s[j] == s[k..a][j - k];
    assert a < |s| ==> s[a] == s[a..][0];
    assert k < |s| ==> !Sep(s[k]);
    SepsEndIs(s, i, k);
    PieceEndIs(s, k, a);
  }

  /** Where a value stands behind its "=". */
  lemma ValueMarks(s: seq<byte>, a: nat, value: seq<byte>, tail: seq<byte>)
    requires a <= |s| && s[a..] == [EQ] + value + tail && NoSeps(value) && (tail != [] ==> Sep(tail[0]))
    ensures var b := a + 1 + |value|;
      a < b <= |s| && s[a] == EQ && PieceEnd(s, a + 1) == b && s[a + 1..b] == value && s[b..] == tail
  {
    var b := a + 1 + |value|;
    ThreeParts(s, a, [EQ], value, tail);
    assert s[a] == s[a..a + 1][0];
    assert forall j :: a + 1 <= j < b ==> s[j] == s[a + 1..b][j - a - 1];
    assert b < |s| ==> s[b] == s[b..][0];
    PieceEndIs(s, a + 1, b);
  }

  /** What Map_Cgi_Params makes of a name, k and a being where it starts and ends. */
  lemma NameRound(s: seq<byte>, i: nat, k: nat, a: nat, m: Table)
    requires i < |s| && Escaped(s, i) && k == SepsEnd(s, i) && a == PieceEnd(s, k)
    ensures Complete(Blanks(s[k..a])) && Escaped(s, a + 1)
    ensures var m' := Assign(m, s[k..a], []);
      ParseName(s, i, m) ==
        if a == |s| || (s[a] != EQ && a + 1 < |s|) then Result(-3, m')
        else if a + 1 == |s| then Result(0, m')
        else ParseValue(s, a + 1, Decode(s[k..a]), m)
  {
    NothingDecodes();
    hide SepsEnd, PieceEnd, Decode, Blanks, Complete, Escaped;
    SepsEscaped(s, i);
    Ready(s, k);
    hide ParseValue;
  }

  lemma NothingDecodes()
    ensures Complete(Blanks([])) && Decode([]) == []
  {
    assert Blanks([]) == [];
  }

  lemma ValueRound(s: seq<byte>, k: nat, a: nat, b: nat, m: Table)
    requires k <= a < |s| && a + 1 < |s| && Escaped(s, a + 1) && b == PieceEnd(s, a + 1) && Complete(Blanks(s[k..a]))
    ensures Complete(Blanks(s[a + 1..b])) && Escaped(s, b + 1)
    ensures ParseValue(s, a + 1, Decode(s[k..a]), m) == ParseName(s, b + 1, Assign(m, s[k..a], s[a + 1..b]))
  {
    hide SepsEnd, PieceEnd, Decode, Blanks, Complete, Escaped;
    Ready(s, a + 1);
  }

  lemma FieldMarks(s: seq<byte>, i: nat, f: Field, rest: seq<byte>)
    requires i <= |s| && s[i..] == FieldText(f) + rest && FieldOk(f)
    ensures var k := i + |f.seps|; var a := k + |f.name|; var b := a + 1 + |f.value|;
      && SepsEnd(s, i) == k && PieceEnd(s, k) == a && s[k..a] == f.name
      && a + 1 < |s| && s[a] == EQ && PieceEnd(s, a + 1) == b && s[a + 1..b] == f.value
      && b + 1 == i + |FieldText(f)| <= |s| && s[b + 1..] == rest
  {
    hide SepsEnd, PieceEnd, FieldText, AllSeps, NoSeps;
    FieldRegroup(f, rest);
    var end := [f.sep] + rest;
    var tail := [EQ] + f.value + end;
    var a := i + |f.seps| + |f.name|;
    assert tail[0] == EQ;
    NameMarks(s, i, f.seps, f.name, tail);
    ValueMarks(s, a, f.value, end);
    BehindFirst(s, a + 1 + |f.value|, f.sep, rest);
  }

  lemma FieldRegroup(f: Field, rest: seq<byte>)
    ensures FieldText(f) + rest == f.seps + f.name + ([EQ] + f.value + ([f.sep] + rest))
    ensures |FieldText(f)| == |f.seps| + |f.name| + |f.value| + 2
  {
  }

  lemma BehindFirst(s: seq<byte>, b: nat, c: byte, rest: seq<byte>)
    requires b <= |s| && s[b..] == [c] + rest
    ensures b < |s| && s[b] == c && s[b + 1..] == rest
  {
    assert s[b..][1..] == s[b + 1..];
  }

  lemma FieldParsed(s: seq<byte>, i: nat, f: Field, rest: seq<byte>, m: Table)
    requires i <= |s| && s[i..] == FieldText(f) + rest && FieldOk(f) && Escaped(s, i)
    ensures var b := i + |FieldText(f)|;
      b <= |s| && s[b..] == rest && Escaped(s, b) && ParseName(s, i, m) == ParseName(s, b, Assign(m, f.name, f.value))
  {
    hide FieldText, FieldOk, SepsEnd, PieceEnd, Escaped, ParseName, ParseValue, Assign, Blanks, Complete, Decode;
    FieldMarks(s, i, f, rest);
    var k := i + |f.seps|;
    var a := k + |f.name|;
    NameRound(s, i, k, a, m);
    ValueRound(s, k, a, a + 1 + |f.value|, m);
  }

  lemma EndingParts(e: Ending)
    requires EndingOk(e) && !e.Nothing?
    ensures AllSeps(e.seps) && NoSeps(e.name) && (e.name != [] || AfterName(e) == []) && |e.seps| + |e.name| > 0
    ensures AfterName(e) != [] ==> Sep(AfterName(e)[0]) && (AfterName(e)[0] == EQ <==> e.LastPair?)
    ensures !Accepted(e) <==> AfterName(e) == [] || (!e.LastPair? && |AfterName(e)| > 1)
    ensures e.LastPair? ==> NoSeps(e.value) && AfterName(e) == [EQ] + e.value + []
  {
  }

  lemma EndingMarks(s: seq<byte>, i: nat, e: Ending)
    requires i <= |s| && s[i..] == EndingText(e) && EndingOk(e) && !e.Nothing?
    ensures var k := i + |e.seps|; var a := k + |e.name|;
      i < |s| && SepsEnd(s, i) == k && PieceEnd(s, k) == a && a <= |s| && s[k..a] == e.name && s[a..] == AfterName(e)
  {
    EndingParts(e);
    hide SepsEnd, PieceEnd, AllSeps, NoSeps, AfterName, EndingOk;
    var tail := AfterName(e);
    assert s[i..] == e.seps + e.name + tail;
    hide EndingText;
    NameMarks(s, i, e.seps, e.name, tail);
  }

  lemma LastValue(s: seq<byte>, a: nat, e: Ending)
    requires a <= |s| && s[a..] == AfterName(e) && EndingOk(e) && e.LastPair?
    ensures a < |s| && s[a] == EQ && PieceEnd(s, a + 1) == |s| && s[a + 1..] == e.value
  {
    EndingParts(e);
    hide PieceEnd, AllSeps, NoSeps, AfterName, EndingOk;
    ValueMarks(s, a, e.value, []);
    assert |s[a..]| == 1 + |e.value|;
  }

  lemma BoundByEnding(m: Table, e: Ending)
    requires !e.Nothing?
    ensures Bound(m, [], e) == Assign(m, e.name, if e.LastPair? then e.value else [])
  {
  }

  lemma EndingParsed(s: seq<byte>, i: nat, e: Ending, m: Table)
    requires i <= |s| && s[i..] == EndingText(e) && EndingOk(e) && Escaped(s, i)
    ensures ParseName(s, i, m) == Result(if Accepted(e) then 0 else -3, Bound(m, [], e))
  {
    hide SepsEnd, PieceEnd, Escaped, ParseName, ParseValue, Assign, Blanks, Complete, Decode, AllSeps, NoSeps;
    if e.Nothing? {
      NothingLeft(s, m);
    } else {
      BoundByEnding(m, e);
      hide EndingText, EndingOk, AfterName, Accepted, Bound;
      EndingParts(e);
      EndingMarks(s, i, e);
      var k := i + |e.seps|;
      var a := k + |e.name|;
      NameRound(s, i, k, a, m);
      assert |s[a..]| == |s| - a && (a < |s| ==> s[a..][0] == s[a]);
      if e.LastPair? {
        LastValue(s, a, e);
        LastPairParsed(s, k, a, e.value, m);
      }
    }
  }

  lemma LastPairParsed(s: seq<byte>, k: nat, a: nat, value: seq<byte>, m: Table)
    requires k <= a < |s| && Escaped(s, a + 1) && PieceEnd(s, a + 1) == |s| && s[a + 1..] == value && Complete(Blanks(s[k..a]))
    ensures a + 1 < |s| ==> ParseValue(s, a + 1, Decode(s[k..a]), m) == Result(0, Assign(m, s[k..a], value))
    ensures a + 1 == |s| ==> value == []
  {
    hide PieceEnd, Escaped, ParseName, ParseValue, Assign, Blanks, Complete, Decode;
    if a + 1 < |s| {
      ValueRound(s, k, a, |s|, m);
      assert s[a + 1..|s|] == value;
      NothingLeft(s, Assign(m, s[k..a], value));
    }
  }

  /** The shape of a string decides the code and the bindings. */
  lemma {:induction false} ShapeParsed(s: seq<byte>, i: nat, fs: seq<Field>, e: Ending, m: Table)
    requires i <= |s| && s[i..] == QueryText(fs, e) && ShapeOk(fs, e) && Escaped(s, i)
    ensures ParseName(s, i, m) == Result(if Accepted(e) then 0 else -3, Bound(m, fs, e))
    decreases |fs|
  {
    hide FieldOk, EndingOk, FieldText, EndingText, ParseName, Escaped, Assign, Accepted;
    if fs == [] {
      EndingParsed(s, i, e, m);
    } else {
      FieldParsed(s, i, fs[0], QueryText(fs[1..], e), m);
      ShapeParsed(s, i + |FieldText(fs[0])|, fs[1..], e, Assign(m, fs[0].name, fs[0].value));
    }
  }

  ghost predicate HasShape(s: seq<byte>, fs: seq<Field>, e: Ending) { ShapeOk(fs, e) && QueryText(fs, e) == s }

  /** Fields, then nothing, a pair, or a name and one final "&". */
  ghost predicate WellFormed(s: seq<byte>) {
    exists fs, e :: HasShape(s, fs, e) && Accepted(e)
  }

  /** Map_Cgi_Params returns 0 if and only if the string is well formed, and -3 otherwise. */
  lemma CodeExact(s: seq<byte>, m: Table)
    requires Escaped(s, 0)
    ensures ParseName(s, 0, m).rc == if WellFormed(s) then 0 else -3
  {
    assert s[0..] == s;
    hide ShapeOk, QueryText, Escaped, ParseName, Accepted, Bound;
    var fs, e := EveryStringHasAShape(s);
    assert HasShape(s, fs, e);
    ShapeParsed(s, 0, fs, e, m);
    if WellFormed(s) {
      var fs', e' :| HasShape(s, fs', e') && Accepted(e');
      ShapeParsed(s, 0, fs', e', m);
    }
  }

  /** What a form sends: pairs and bare names, joined with "&", and n further "&" at the end. */
  datatype Item = PairItem(name: seq<byte>, value: seq<byte>) | NameItem(name: seq<byte>)

  predicate ItemOk(x: Item) { x.name != [] && NoSeps(x.name) && (x.PairItem? ==> NoSeps(x.value)) }

  function ItemText(x: Item): seq<byte> { if x.PairItem? then x.name + [EQ] + x.value else x.name }

  function Amps(n: nat): seq<byte> { seq(n, _ => AMP) }

  function ItemsText(xs: seq<Item>, n: nat): seq<byte> {
    if xs == [] then Amps(n)
    else if |xs| == 1 then ItemText(xs[0]) + Amps(n)
    else ItemText(xs[0]) + [AMP] + ItemsText(xs[1..], n)
  }

  /** All items are pairs but perhaps the last; a pair bears one final "&", a name needs it. */
  ghost predicate ItemsAccepted(xs: seq<Item>, n: nat) {
    if xs == [] then n == 0 else
    && (forall k :: 0 <= k < |xs| - 1 ==> xs[k].PairItem?)
    && (if xs[|xs| - 1].PairItem? then n <= 1 else n == 1)
  }

  lemma AmpsShape(n: nat) returns (e: Ending)
    ensures HasShape(Amps(n), [], e) && (Accepted(e) <==> n == 0) && |Amps(n)| == n
  {
    e := if n == 0 then Nothing else Bare(Amps(n), []);
    assert Amps(n) + [] == Amps(n);
  }

  /** A name with more items behind it. */
  lemma NameFirst(x: Item, more: seq<byte>) returns (e: Ending)
    requires ItemOk(x) && x.NameItem? && more != []
    ensures HasShape(ItemText(x) + [AMP] + more, [], e) && !Accepted(e)
  {
    e := BareThenMore([], x.name, more);
    assert [] + x.name == x.name;
    assert EndingText(e) == x.name + ([AMP] + more);
  }

  /** A pair with more behind it. */
  lemma PairFirst(x: Item, more: seq<byte>, fs: seq<Field>, e: Ending) returns (f: Field)
    requires ItemOk(x) && x.PairItem? && HasShape(more, fs, e)
    ensures HasShape(ItemText(x) + [AMP] + more, [f] + fs, e)
  {
    f := Field([], x.name, x.value, AMP);
    assert [] + x.name == x.name;
    assert FieldText(f) == ItemText(x) + [AMP];
    assert FieldOk(f);
    hide FieldText, FieldOk, EndingOk;
    assert ([f] + fs)[1..] == fs;
  }

  /** A last item with n "&" behind it. */
  lemma LastItemShape(x: Item, n: nat) returns (fs: seq<Field>, e: Ending)
    requires ItemOk(x)
    ensures HasShape(ItemText(x) + Amps(n), fs, e) && (Accepted(e) <==> if x.PairItem? then n <= 1 else n == 1)
  {
    hide HasShape, ItemOk, ItemText, Amps;
    fs := [];
    if n == 0 {
      e := ItemAlone(x);
    } else {
      var more := Amps(n - 1);
      AmpFirst(ItemText(x), n);
      e := AmpsShape(n - 1);
      if x.PairItem? {
        var f := PairFirst(x, more, [], e);
        fs := [f] + [];
      } else if n > 1 {
        e := NameFirst(x, more);
      } else {
        e := NameAmp(x);
      }
    }
  }

  lemma AmpFirst(t: seq<byte>, n: nat)
    requires n > 0
    ensures t + Amps(n) == t + [AMP] + Amps(n - 1)
  {
    assert Amps(n) == [AMP] + Amps(n - 1);
  }

  lemma ItemAlone(x: Item) returns (e: Ending)
    requires ItemOk(x)
    ensures HasShape(ItemText(x) + Amps(0), [], e) && (Accepted(e) <==> x.PairItem?)
  {
    if x.PairItem? {
      e := PairAlone(x);
    } else {
      e := NameAlone(x);
    }
    hide HasShape, ItemOk, ItemText;
    assert ItemText(x) + Amps(0) == ItemText(x);
  }

  lemma PairAlone(x: Item) returns (e: Ending)
    requires ItemOk(x) && x.PairItem?
    ensures HasShape(ItemText(x), [], e) && Accepted(e)
  {
    e := LastPair([], x.name, x.value);
    assert [] + x.name + ([EQ] + x.value) == x.name + [EQ] + x.value;
  }

  lemma NameAlone(x: Item) returns (e: Ending)
    requires ItemOk(x) && x.NameItem?
    ensures HasShape(ItemText(x), [], e) && !Accepted(e)
  {
    e := Bare([], x.name);
    assert [] + x.name + [] == x.name;
  }

  lemma NameAmp(x: Item) returns (e: Ending)
    requires ItemOk(x) && x.NameItem?
    ensures HasShape(ItemText(x) + [AMP] + Amps(0), [], e) && Accepted(e)
  {
    e := BareThenAmp([], x.name);
    assert ItemText(x) + [AMP] + Amps(0) == [] + x.name + [AMP];
  }

  lemma {:induction false} ItemsShape(xs: seq<Item>, n: nat) returns (fs: seq<Field>, e: Ending)
    requires forall k :: 0 <= k < |xs| ==> ItemOk(xs[k])
    ensures HasShape(ItemsText(xs, n), fs, e) && (Accepted(e) <==> ItemsAccepted(xs, n))
    decreases |xs|
  {
    hide HasShape, Accepted, ItemOk, ItemText;
    fs := [];
    if xs == [] {
      e := AmpsShape(n);
    } else if |xs| == 1 {
      fs, e := LastItemShape(xs[0], n);
    } else if xs[0].NameItem? {
      ItemsNotEmpty(xs[1..], n);
      e := NameFirst(xs[0], ItemsText(xs[1..], n));
    } else {
      fs, e := ItemsShape(xs[1..], n);
      var f := PairFirst(xs[0], ItemsText(xs[1..], n), fs, e);
      fs := [f] + fs;
      ItemsAcceptedRest(xs, n);
    }
  }

  lemma ItemsNotEmpty(xs: seq<Item>, n: nat)
    requires xs != [] && ItemOk(xs[0])
    ensures ItemsText(xs, n) != []
  {
  }

  lemma ItemsAcceptedRest(xs: seq<Item>, n: nat)
    requires |xs| > 1 && xs[0].PairItem?
    ensures ItemsAccepted(xs, n) <==> ItemsAccepted(xs[1..], n)
  {
    assert forall k :: 0 <= k < |xs| - 1 ==> xs[1..][k] == xs[k + 1];
    if ItemsAccepted(xs[1..], n) {
      forall k | 0 <= k < |xs| - 1 ensures xs[k].PairItem? {
        assert k > 0 ==> xs[1..][k - 1].PairItem?;
      }
    }
  }

  /** For what forms send, the code is 0 exactly when this holds of the items and the final "&". */
  lemma ItemsCode(xs: seq<Item>, n: nat, m: Table)
    requires (forall k :: 0 <= k < |xs| ==> ItemOk(xs[k])) && Escaped(ItemsText(xs, n), 0)
    ensures ParseName(ItemsText(xs, n), 0, m).rc == if ItemsAccepted(xs, n) then 0 else -3
  {
    var s := ItemsText(xs, n);
    var fs, e := ItemsShape(xs, n);
    assert s[0..] == s;
    hide ItemsText, ShapeOk, QueryText, Escaped, ParseName, Accepted, Bound, ItemsAccepted, ItemOk;
    ShapeParsed(s, 0, fs, e, m);
  }
}
