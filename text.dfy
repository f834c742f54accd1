/** The Python 2 string primitives the front end is built on: `unicode.strip()`,
    `str.split(sep, ...)`, `unicode.split()` and `int(...)`, on strings that are
    already decoded (`seq<char>`). The functions only compute; the lemma after
    each of them states what it guarantees. */
module Text {
  import opened Results

  /** The characters Python's `unicode.isspace()` accepts; `strip()`, `split()`
      and `int()` all skip these. */
  predicate IsSpace(c: char) {
    c == ' ' || '\t' <= c <= '\r' || '\U{1c}' <= c <= '\U{1f}'
    || c == '\U{85}' || c == '\U{a0}' || c == '\U{1680}' || c == '\U{180e}'
    || '\U{2000}' <= c <= '\U{200a}' || c == '\U{2028}' || c == '\U{2029}'
    || c == '\U{202f}' || c == '\U{205f}' || c == '\U{3000}'
  }

  predicate IsDigit(c: char) {
    '0' <= c <= '9'
  }

  ghost predicate AllSpace(s: string) {
    forall i :: 0 <= i < |s| ==> IsSpace(s[i])
  }

  /** `s` with every whitespace character removed: what survives stripping and splitting. */
  function RemoveSpaces(s: string): string {
    if s == [] then []
    else (if IsSpace(s[0]) then [] else [s[0]]) + RemoveSpaces(s[1..])
  }

  lemma {:induction false} RemoveSpacesAppend(a: string, b: string)
    ensures RemoveSpaces(a + b) == RemoveSpaces(a) + RemoveSpaces(b)
  {
    if a != [] {
      assert (a + b)[1..] == a[1..] + b;
      RemoveSpacesAppend(a[1..], b);
    } else {
      assert a + b == b;
    }
  }

  lemma {:induction false} NoSpaceUnchanged(s: string)
    requires forall i :: 0 <= i < |s| ==> !IsSpace(s[i])
    ensures RemoveSpaces(s) == s
  {
    if s != [] {
      NoSpaceUnchanged(s[1..]);
    }
  }

  /** `s.lstrip()`. */
  function TrimLeft(s: string): string {
    if s != [] && IsSpace(s[0]) then TrimLeft(s[1..]) else s
  }

  /** `lstrip()` keeps a suffix of `s`, cuts off only whitespace, and leaves no
      whitespace in front. */
  lemma {:induction false} TrimLeftSpec(s: string)
    ensures |TrimLeft(s)| <= |s| && TrimLeft(s) == s[|s| - |TrimLeft(s)|..]
    ensures AllSpace(s[..|s| - |TrimLeft(s)|])
    ensures TrimLeft(s) == [] || !IsSpace(TrimLeft(s)[0])
  {
    if s != [] && IsSpace(s[0]) {
      TrimLeftSpec(s[1..]);
      var r := TrimLeft(s);
      assert s[..|s| - |r|] == [s[0]] + s[1..][..|s[1..]| - |r|];
    }
  }

  /** `s.rstrip()`. */
  function TrimRight(s: string): string {
    if s != [] && IsSpace(s[|s| - 1]) then TrimRight(s[..|s| - 1]) else s
  }

  /** `rstrip()` keeps a prefix of `s`, cuts off only whitespace, and leaves no
      whitespace at the end. */
  lemma {:induction false} TrimRightSpec(s: string)
    ensures |TrimRight(s)| <= |s| && TrimRight(s) == s[..|TrimRight(s)|]
    ensures AllSpace(s[|TrimRight(s)|..])
    ensures TrimRight(s) == [] || !IsSpace(TrimRight(s)[|TrimRight(s)| - 1])
  {
    if s != [] && IsSpace(s[|s| - 1]) {
      TrimRightSpec(s[..|s| - 1]);
      var r := TrimRight(s);
      assert s[|r|..] == s[..|s| - 1][|r|..] + [s[|s| - 1]];
    }
  }

  /** `s.strip()`. */
  function Strip(s: string): string {
    TrimRight(TrimLeft(s))
  }

  /** Index of the first character `strip()` keeps. */
  function StripStart(s: string): int {
    |s| - |TrimLeft(s)|
  }

  /** `strip()` yields the slice of `s` from `StripStart(s)` that neither begins
      nor ends with whitespace, and what it cuts off on either side is
      whitespace only. */
  lemma StripSpec(s: string)
    ensures Strip(s) == [] || (!IsSpace(Strip(s)[0]) && !IsSpace(Strip(s)[|Strip(s)| - 1]))
    ensures 0 <= StripStart(s) && StripStart(s) + |Strip(s)| <= |s|
    ensures Strip(s) == s[StripStart(s)..StripStart(s) + |Strip(s)|]
    ensures AllSpace(s[..StripStart(s)]) && AllSpace(s[StripStart(s) + |Strip(s)|..])
  {
    var t := TrimLeft(s);
    TrimLeftSpec(s);
    TrimRightSpec(t);
    assert s[StripStart(s) + |Strip(s)|..] == t[|Strip(s)|..];
  }

  lemma {:induction false} TrimLeftKeepsNonSpace(s: string)
    ensures RemoveSpaces(TrimLeft(s)) == RemoveSpaces(s)
  {
    if s != [] && IsSpace(s[0]) {
      TrimLeftKeepsNonSpace(s[1..]);
    }
  }

  lemma {:induction false} TrimRightKeepsNonSpace(s: string)
    ensures RemoveSpaces(TrimRight(s)) == RemoveSpaces(s)
  {
    if s != [] && IsSpace(s[|s| - 1]) {
      var init := s[..|s| - 1];
      TrimRightKeepsNonSpace(init);
      assert s == init + [s[|s| - 1]];
      RemoveSpacesAppend(init, [s[|s| - 1]]);
      assert RemoveSpaces([s[|s| - 1]]) == [];
    }
  }

  /** Stripping discards whitespace and nothing else. */
  lemma StripKeepsNonSpace(s: string)
    ensures RemoveSpaces(Strip(s)) == RemoveSpaces(s)
  {
    TrimLeftKeepsNonSpace(s);
    TrimRightKeepsNonSpace(TrimLeft(s));
  }

  /** A string without whitespace at either end is its own strip. */
  lemma StripUnchanged(s: string)
    requires s == [] || (!IsSpace(s[0]) && !IsSpace(s[|s| - 1]))
    ensures Strip(s) == s
  {
  }

  /** `s.split(sep, 1)`: the text before the first `sep` and the text after it;
      `None` when `sep` does not occur (the one-element list that makes a
      two-name unpacking fail). */
  function SplitFirst(s: string, sep: char): Option<(string, string)> {
    if s == [] then None
    else if s[0] == sep then Some(([], s[1..]))
    else match SplitFirst(s[1..], sep)
      case None => None
      case Some(p) => Some(([s[0]] + p.0, p.1))
  }

  /** `split(sep, 1)` comes back with one part exactly when `sep` is absent;
      otherwise it cuts at the first `sep`: the parts and `sep` rebuild `s`, and
      the first part holds no `sep`. */
  lemma {:induction false} SplitFirstSpec(s: string, sep: char)
    ensures SplitFirst(s, sep).None? <==> sep !in s
    ensures SplitFirst(s, sep).Some? ==>
              s == SplitFirst(s, sep).value.0 + [sep] + SplitFirst(s, sep).value.1
              && sep !in SplitFirst(s, sep).value.0
  {
    if s != [] && s[0] != sep {
      SplitFirstSpec(s[1..], sep);
      assert s == [s[0]] + s[1..];
    }
  }

  /** Number of occurrences of `c` in `s`. */
  function Count(s: string, c: char): nat {
    if s == [] then 0 else (if s[0] == c then 1 else 0) + Count(s[1..], c)
  }

  lemma {:induction false} CountAppend(a: string, b: string, c: char)
    ensures Count(a + b, c) == Count(a, c) + Count(b, c)
  {
    if a == [] {
      assert a + b == b;
    } else {
      assert (a + b)[1..] == a[1..] + b;
      CountAppend(a[1..], b, c);
    }
  }

  lemma {:induction false} CountAbsent(s: string, c: char)
    requires c !in s
    ensures Count(s, c) == 0
  {
    if s != [] {
      CountAbsent(s[1..], c);
    }
  }

  /** The pieces joined back with `sep` between them. */
  function Join(pieces: seq<string>, sep: char): string
    requires |pieces| >= 1
  {
    if |pieces| == 1 then pieces[0] else pieces[0] + [sep] + Join(pieces[1..], sep)
  }

  /** `s.split(sep)`. */
  function SplitAll(s: string, sep: char): seq<string>
    decreases |s|
  {
    match SplitFirst(s, sep)
    case None => [s]
    case Some(p) =>
      SplitFirstSpec(s, sep);
      [p.0] + SplitAll(p.1, sep)
  }

  /** `split(sep)` gives one more piece than there are separators, no piece
      holds `sep`, and joining the pieces with `sep` gives `s` back. */
  lemma {:induction false} SplitAllSpec(s: string, sep: char)
    ensures |SplitAll(s, sep)| == Count(s, sep) + 1
    ensures forall k :: 0 <= k < |SplitAll(s, sep)| ==> sep !in SplitAll(s, sep)[k]
    ensures Join(SplitAll(s, sep), sep) == s
    decreases |s|
  {
    SplitFirstSpec(s, sep);
    match SplitFirst(s, sep)
    case None =>
      CountAbsent(s, sep);
    case Some(p) =>
      var rest := SplitAll(p.1, sep);
      SplitAllSpec(p.1, sep);
      CountAppend(p.0 + [sep], p.1, sep);
      CountAppend(p.0, [sep], sep);
      CountAbsent(p.0, sep);
      assert SplitAll(s, sep) == [p.0] + rest;
      assert ([p.0] + rest)[1..] == rest;
  }

  /** Length of the longest prefix of `s` free of whitespace. */
  function WordLength(s: string): nat {
    if s == [] || IsSpace(s[0]) then 0 else 1 + WordLength(s[1..])
  }

  lemma {:induction false} WordLengthSpec(s: string)
    ensures WordLength(s) <= |s| && (WordLength(s) < |s| ==> IsSpace(s[WordLength(s)]))
    ensures forall i :: 0 <= i < WordLength(s) ==> !IsSpace(s[i])
  {
    if s != [] && !IsSpace(s[0]) {
      WordLengthSpec(s[1..]);
    }
  }

  /** `s.split()` with no argument. */
  function SplitWhitespace(s: string): seq<string>
    decreases |s|
  {
    var t := TrimLeft(s);
    TrimLeftSpec(s);
    if t == [] then []
    else
      var n := WordLength(t);
      WordLengthSpec(t);
      [t[..n]] + SplitWhitespace(t[n..])
  }

  /** The characters of all pieces, in order. */
  function Concat(pieces: seq<string>): string {
    if pieces == [] then [] else pieces[0] + Concat(pieces[1..])
  }

  lemma ConcatCons(p: string, rest: seq<string>)
    ensures Concat([p] + rest) == p + Concat(rest)
  {
    assert ([p] + rest)[1..] == rest;
  }

  lemma {:induction false} ConcatAppend(a: seq<string>, b: seq<string>)
    ensures Concat(a + b) == Concat(a) + Concat(b)
  {
    if a == [] {
      assert a + b == b;
    } else {
      assert a + b == [a[0]] + (a[1..] + b);
      ConcatAppend(a[1..], b);
      ConcatCons(a[0], a[1..] + b);
      ConcatCons(a[0], a[1..]);
      assert [a[0]] + a[1..] == a;
    }
  }

  lemma {:induction false} SplitWhitespacePieces(s: string)
    ensures forall k :: 0 <= k < |SplitWhitespace(s)| ==> SplitWhitespace(s)[k] != []
    ensures forall k, i :: 0 <= k < |SplitWhitespace(s)| && 0 <= i < |SplitWhitespace(s)[k]|
              ==> !IsSpace(SplitWhitespace(s)[k][i])
    decreases |s|
  {
    var t := TrimLeft(s);
    TrimLeftSpec(s);
    if t != [] {
      var n := WordLength(t);
      WordLengthSpec(t);
      var rest := SplitWhitespace(t[n..]);
      SplitWhitespacePieces(t[n..]);
      assert SplitWhitespace(s) == [t[..n]] + rest;
    }
  }

  lemma {:induction false} SplitWhitespaceConcat(s: string)
    ensures Concat(SplitWhitespace(s)) == RemoveSpaces(s)
    decreases |s|
  {
    var t := TrimLeft(s);
    TrimLeftSpec(s);
    TrimLeftKeepsNonSpace(s);
    if t != [] {
      var n := WordLength(t);
      WordLengthSpec(t);
      var rest := SplitWhitespace(t[n..]);
      SplitWhitespaceConcat(t[n..]);
      assert SplitWhitespace(s) == [t[..n]] + rest;
      ConcatCons(t[..n], rest);
      assert RemoveSpaces(t) == t[..n] + RemoveSpaces(t[n..]) by {
        assert t == t[..n] + t[n..];
        RemoveSpacesAppend(t[..n], t[n..]);
        NoSpaceUnchanged(t[..n]);
      }
    }
  }

  /** `split()` yields non-empty, whitespace-free words that together hold
      exactly the non-whitespace characters of `s`, in order. */
  lemma SplitWhitespaceSpec(s: string)
    ensures forall k :: 0 <= k < |SplitWhitespace(s)| ==> SplitWhitespace(s)[k] != []
    ensures forall k, i :: 0 <= k < |SplitWhitespace(s)| && 0 <= i < |SplitWhitespace(s)[k]|
              ==> !IsSpace(SplitWhitespace(s)[k][i])
    ensures Concat(SplitWhitespace(s)) == RemoveSpaces(s)
  {
    SplitWhitespacePieces(s);
    SplitWhitespaceConcat(s);
  }

  /** A non-empty piece of text without whitespace. */
  ghost predicate IsWord(w: string) {
    w != [] && forall i :: 0 <= i < |w| ==> !IsSpace(w[i])
  }

  /** `' '.join(words)`: the words with a single space between neighbours. */
  function JoinWords(words: seq<string>): string {
    if words == [] then []
    else if |words| == 1 then words[0]
    else words[0] + " " + JoinWords(words[1..])
  }

  lemma {:induction false} WordLengthOfWord(w: string, rest: string)
    requires IsWord(w) && (rest == [] || IsSpace(rest[0]))
    ensures WordLength(w + rest) == |w|
    decreases |w|
  {
    assert (w + rest)[0] == w[0];
    if |w| > 1 {
      assert (w + rest)[1..] == w[1..] + rest;
      WordLengthOfWord(w[1..], rest);
    } else {
      assert (w + rest)[1..] == rest;
    }
  }

  /** `split()` cuts exactly at the whitespace: the words joined with spaces
      split back into the same words. This is what tells `"12"` (one id) from
      `"1 2"` (two ids). */
  lemma {:induction false} SplitJoinWords(words: seq<string>)
    requires forall k :: 0 <= k < |words| ==> IsWord(words[k])
    ensures SplitWhitespace(JoinWords(words)) == words
  {
    if words != [] {
      var w := words[0];
      var rest := if |words| == 1 then [] else " " + JoinWords(words[1..]);
      var s := JoinWords(words);
      assert s == w + rest;
      assert s[0] == w[0];
      assert TrimLeft(s) == s;
      WordLengthOfWord(w, rest);
      assert s[..|w|] == w && s[|w|..] == rest;
      if |words| > 1 {
        SplitJoinWords(words[1..]);
        assert rest[0] == ' ';
        assert rest[1..] == JoinWords(words[1..]);
        assert SplitWhitespace(rest) == SplitWhitespace(rest[1..]);
        assert words == [w] + words[1..];
      } else {
        assert SplitWhitespace(rest) == [];
      }
    }
  }

  predicate AllDigits(d: string) {
    forall i :: 0 <= i < |d| ==> IsDigit(d[i])
  }

  function DigitValue(c: char): nat
    requires IsDigit(c)
  {
    c as int - '0' as int
  }

  /** Value of a string of decimal digits, most significant first. */
  function DigitsValue(d: string): nat
    requires AllDigits(d)
  {
    if d == [] then 0 else 10 * DigitsValue(d[..|d| - 1]) + DigitValue(d[|d| - 1])
  }

  /** Python 2 `int(s)` on a decoded string: surrounding whitespace, an optional
      sign, whitespace after the sign, then one or more ASCII digits; anything
      else is a ValueError. */
  function ParseInt(s: string): Option<int> {
    ParseSigned(Strip(s))
  }

  /** An optional sign, then whitespace (which `int()` skips again after the
      sign), then one or more digits and nothing else. */
  function ParseSigned(t: string): Option<int> {
    if t == [] then None
    else if t[0] == '-' || t[0] == '+' then
      var digits := TrimLeft(t[1..]);
      if digits != [] && AllDigits(digits) then
        Some(if t[0] == '-' then 0 - DigitsValue(digits) else DigitsValue(digits))
      else None
    else if AllDigits(t) then Some(DigitsValue(t))
    else None
  }

  /** Python's `str(n)` for a natural number. */
  function ShowNat(n: nat): string {
    var last := ['0' + (n % 10) as char];
    if n < 10 then last else ShowNat(n / 10) + last
  }

  lemma {:induction false} ShowNatValue(n: nat)
    ensures ShowNat(n) != [] && AllDigits(ShowNat(n))
    ensures DigitsValue(ShowNat(n)) == n
  {
    if n >= 10 {
      ShowNatValue(n / 10);
      var d := ShowNat(n);
      assert d[..|d| - 1] == ShowNat(n / 10);
    }
  }

  /** `int(str(n)) == n`: the digits Python prints for an id read back as that id. */
  lemma ParseIntShowNat(n: nat)
    ensures ParseInt(ShowNat(n)) == Some(n)
  {
    ShowNatValue(n);
    ParseIntDigits(ShowNat(n));
  }

  /** The same for a negative id written with a minus sign. */
  lemma ParseIntShowNegative(n: nat)
    ensures ParseInt("-" + ShowNat(n)) == Some(-(n as int))
  {
    var d := ShowNat(n);
    ShowNatValue(n);
    ParseIntNegativeDigits(d);
    assert ParseInt("-" + d) == Some(0 - DigitsValue(d));
  }

  lemma ParseIntDigits(d: string)
    requires d != [] && AllDigits(d)
    ensures ParseInt(d) == Some(DigitsValue(d))
  {
    assert IsDigit(d[0]) && IsDigit(d[|d| - 1]);
    StripUnchanged(d);
  }

  lemma ParseIntNegativeDigits(d: string)
    requires d != [] && AllDigits(d)
    ensures ParseInt("-" + d) == Some(0 - DigitsValue(d))
  {
    var t := "-" + d;
    assert t[|t| - 1] == d[|d| - 1] && IsDigit(d[|d| - 1]);
    StripUnchanged(t);
    ParseSignedNegative(d);
  }

  lemma ParseSignedNegative(d: string)
    requires d != [] && AllDigits(d)
    ensures ParseSigned("-" + d) == Some(0 - DigitsValue(d))
  {
    var t := "-" + d;
    assert t[0] == '-';
    assert t[1..] == d;
    assert IsDigit(d[0]);
  }

  /** A sign may be followed by whitespace: `int("- 3") == -3`. */
  lemma ParseIntSignSpace(ws: string, n: nat)
    requires AllSpace(ws)
    ensures ParseInt("-" + ws + ShowNat(n)) == Some(-(n as int))
    ensures ParseInt("+" + ws + ShowNat(n)) == Some(n)
  {
    var d := ShowNat(n);
    ShowNatValue(n);
    ParseSignSpace('-', ws, d);
    ParseSignSpace('+', ws, d);
  }

  lemma ParseSignSpace(sign: char, ws: string, d: string)
    requires sign in "+-" && AllSpace(ws) && d != [] && AllDigits(d)
    ensures ParseInt([sign] + ws + d) == Some(if sign == '-' then 0 - DigitsValue(d) else DigitsValue(d))
  {
    var t := [sign] + ws + d;
    assert t[|t| - 1] == d[|d| - 1] && IsDigit(d[|d| - 1]);
    StripUnchanged(t);
    assert t[1..] == ws + d;
    TrimLeftSpaces(ws, d);
  }

  lemma {:induction false} TrimLeftSpaces(ws: string, d: string)
    requires AllSpace(ws) && (d == [] || !IsSpace(d[0]))
    ensures TrimLeft(ws + d) == d
  {
    if ws != [] {
      assert (ws + d)[0] == ws[0];
      assert (ws + d)[1..] == ws[1..] + d;
      TrimLeftSpaces(ws[1..], d);
    }
  }

  /** Where `int()` expects the digits of a stripped text: after a leading
      sign and the whitespace that follows it, or at the start. */
  function DigitsStart(t: string): int {
    if t != [] && t[0] in "+-" then |t| - |TrimLeft(t[1..])| else 0
  }

  /** Before the digits come only a sign and whitespace, and the character at
      `DigitsStart` is not whitespace. */
  lemma DigitsStartSpec(t: string)
    ensures 0 <= DigitsStart(t) <= |t|
    ensures t != [] && t[0] in "+-" ==>
              1 <= DigitsStart(t) && AllSpace(t[1..DigitsStart(t)])
              && (DigitsStart(t) < |t| ==> !IsSpace(t[DigitsStart(t)]))
    ensures !(t != [] && t[0] in "+-") ==> DigitsStart(t) == 0
  {
    if t != [] && t[0] in "+-" {
      var u := t[1..];
      TrimLeftSpec(u);
      assert t[1..DigitsStart(t)] == u[..|u| - |TrimLeft(u)|];
      if DigitsStart(t) < |t| {
        assert t[DigitsStart(t)] == TrimLeft(u)[0];
      }
    }
  }

  /** Once the surrounding whitespace is stripped, any character other than a
      digit from `DigitsStart` on makes `int()` fail: only a leading sign and
      the whitespace right after it may precede the digits. */
  lemma ParseIntRejects(s: string, i: nat)
    requires DigitsStart(Strip(s)) <= i < |Strip(s)| && !IsDigit(Strip(s)[i])
    ensures ParseInt(s) == None
  {
    var t := Strip(s);
    if t[0] in "+-" {
      var u := t[1..];
      TrimLeftSpec(u);
      assert TrimLeft(u)[i - DigitsStart(t)] == t[i];
    }
  }

  /** `int()` succeeds exactly when the stripped text has at least one
      character from `DigitsStart` on and all of them are digits; the value is
      those digits, negated after a leading minus. */
  lemma ParseIntExactly(s: string)
    ensures var t := Strip(s); var k := DigitsStart(t);
              ParseInt(s).Some? <==> (0 <= k < |t| && AllDigits(t[k..]))
    ensures var t := Strip(s); var k := DigitsStart(t);
              ParseInt(s).Some? ==>
                (0 <= k < |t| && AllDigits(t[k..])
                 && ParseInt(s).value == (if t[0] == '-' then 0 - DigitsValue(t[k..]) else DigitsValue(t[k..])))
  {
    var t := Strip(s);
    if t != [] && t[0] in "+-" {
      TrimLeftSpec(t[1..]);
      assert t[DigitsStart(t)..] == TrimLeft(t[1..]);
    } else {
      assert t[0..] == t;
    }
  }
}
