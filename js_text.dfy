/**
  The JavaScript string and number built-ins that the report date logic is written with:
  `String.prototype.trim`, `split(/\s+/)`, `toLowerCase`, `parseInt(_, 10)` and
  `Number.prototype.toString`, each stated as a function on `string`. `Words` is an
  independent, character-by-character tokenizer that the lemmas here connect to
  `Split(Trim(_))`.
*/
module JsText {

  /**
    ECMAScript WhiteSpace and LineTerminator code points, which are what `trim` removes and
    what `\s` matches: U+0009 to U+000D, U+0020, U+00A0, U+1680, U+2000 to U+200A, U+2028,
    U+2029, U+202F, U+205F, U+3000 and U+FEFF.
  */
  predicate IsSpace(c: char) {
    var n := c as int;
    || 0x09 <= n <= 0x0D || n == 0x20 || n == 0xA0 || n == 0x1680 || 0x2000 <= n <= 0x200A
    || n == 0x2028 || n == 0x2029 || n == 0x202F || n == 0x205F || n == 0x3000 || n == 0xFEFF
  }

  predicate AllSpace(s: string) {
    forall i :: 0 <= i < |s| ==> IsSpace(s[i])
  }

  predicate NoSpace(s: string) {
    forall i :: 0 <= i < |s| ==> !IsSpace(s[i])
  }

  /** Neither starts nor ends with whitespace: what `trim` leaves. */
  predicate Trimmed(t: string) {
    t == [] || (!IsSpace(t[0]) && !IsSpace(t[|t| - 1]))
  }

  /** Drops the leading whitespace. */
  function TrimStart(s: string): (r: string)
    ensures |r| <= |s| && r == s[|s| - |r|..]
    ensures r == [] || !IsSpace(r[0])
  {
    if s != [] && IsSpace(s[0]) then TrimStart(s[1..]) else s
  }

  /** Drops the trailing whitespace. */
  function TrimEnd(s: string): (r: string)
    ensures |r| <= |s| && r == s[..|r|]
    ensures r == [] || !IsSpace(r[|r| - 1])
  {
    if s != [] && IsSpace(s[|s| - 1]) then TrimEnd(s[..|s| - 1]) else s
  }

  /** What `TrimStart` drops is whitespace. */
  lemma {:induction false} TrimStartDropsSpace(s: string)
    ensures AllSpace(s[..|s| - |TrimStart(s)|])
    decreases |s|
  {
    if s != [] && IsSpace(s[0]) {
      var rest := s[1..];
      TrimStartDropsSpace(rest);
      var k := |s| - |TrimStart(s)|;
      var w := rest[..k - 1];
      assert AllSpace(w);
      assert s[..k] == [s[0]] + w;
    }
  }

  /** What `TrimEnd` drops is whitespace. */
  lemma {:induction false} TrimEndDropsSpace(s: string)
    ensures AllSpace(s[|TrimEnd(s)|..])
    decreases |s|
  {
    if s != [] && IsSpace(s[|s| - 1]) {
      var p := s[..|s| - 1];
      TrimEndDropsSpace(p);
      assert s[|TrimEnd(s)|..] == p[|TrimEnd(p)|..] + [s[|s| - 1]];
    }
  }

  /** `s.trim()` */
  function Trim(s: string): (r: string)
    ensures Trimmed(r)
  {
    TrimEnd(TrimStart(s))
  }

  /** Index of the first whitespace character of `s`, or `|s|` when there is none. */
  function SpaceIndex(s: string): (i: nat)
    ensures i <= |s|
    ensures forall k :: 0 <= k < i ==> !IsSpace(s[k])
    ensures i < |s| ==> IsSpace(s[i])
  {
    if s == [] || IsSpace(s[0]) then 0 else 1 + SpaceIndex(s[1..])
  }

  /**
    `s.split(/\s+/)`: the pieces between the maximal runs of whitespace, with an empty
    first (last) piece when `s` starts (ends) with whitespace, and `[""]` for `""`.
  */
  function Split(s: string): (parts: seq<string>)
    ensures parts != []
    decreases |s|
  {
    var i := SpaceIndex(s);
    if i == |s| then [s]
    else
      var rest := TrimStart(s[i..]);
      assert |rest| < |s| - i;
      [s[..i]] + Split(rest)
  }

  /** `c.toLowerCase()` for the letters `A` to `Z`; every other character is kept. */
  function LowerChar(c: char): char {
    if 'A' <= c <= 'Z' then (c as int + 32) as char else c
  }

  /** `s.toLowerCase()`, character by character. */
  function Lower(s: string): (r: string)
    ensures |r| == |s|
    ensures forall i :: 0 <= i < |s| ==> r[i] == LowerChar(s[i])
  {
    seq(|s|, i requires 0 <= i < |s| => LowerChar(s[i]))
  }

  function LowerEach(words: seq<string>): (r: seq<string>)
    ensures |r| == |words|
    ensures forall k :: 0 <= k < |words| ==> r[k] == Lower(words[k])
  {
    seq(|words|, k requires 0 <= k < |words| => Lower(words[k]))
  }

  predicate IsDigit(c: char) {
    '0' <= c <= '9'
  }

  predicate AllDigits(s: string) {
    forall i :: 0 <= i < |s| ==> IsDigit(s[i])
  }

  /** Length of the run of decimal digits that `s` starts with. */
  function DigitRun(s: string): (n: nat)
    ensures n <= |s| && AllDigits(s[..n])
    ensures n < |s| ==> !IsDigit(s[n])
  {
    if s != [] && IsDigit(s[0]) then 1 + DigitRun(s[1..]) else 0
  }

  /** The value of a string of decimal digits, read most significant digit first. */
  function DigitsValue(ds: string): nat
    requires AllDigits(ds)
  {
    if ds == [] then 0
    else
      var last := ds[|ds| - 1];
      assert IsDigit(last);
      DigitsValue(ds[..|ds| - 1]) * 10 + (last as int - '0' as int)
  }

  /** A JavaScript number as far as `parseInt` can produce one: an integer, or NaN. */
  datatype NumberValue = Int(value: int) | NaN

  /** The text after one leading `+` or `-`, if there is one. */
  function Unsigned(t: string): string {
    if t != [] && (t[0] == '-' || t[0] == '+') then t[1..] else t
  }

  /** The value of the run of digits that `body` starts with; NaN when there is none. */
  function ReadDigits(body: string): NumberValue {
    var n := DigitRun(body);
    if n == 0 then NaN else Int(DigitsValue(body[..n]))
  }

  /**
    `parseInt(s, 10)`: leading whitespace is skipped, then an optional `+` or `-`, then the
    longest run of decimal digits is read; NaN when that run is empty. Whatever follows
    the digits is ignored.
  */
  function ParseInt(s: string): NumberValue {
    ReadSigned(TrimStart(s))
  }

  /** An optional sign, then the digits it applies to. */
  function ReadSigned(t: string): NumberValue {
    match ReadDigits(Unsigned(t))
    case NaN => NaN
    case Int(v) => if t != [] && t[0] == '-' then Int(-v) else Int(v)
  }

  function DigitChar(d: int): (c: char)
    requires 0 <= d < 10
    ensures IsDigit(c) && c as int - '0' as int == d
  {
    ('0' as int + d) as char
  }

  /** `n.toString()` for a non-negative integer: its decimal digits without leading zeros. */
  function DecimalString(n: nat): (s: string)
    ensures s != [] && AllDigits(s)
    ensures s[0] == '0' ==> n == 0
    ensures DigitsValue(s) == n
  {
    if n < 10 then [DigitChar(n)]
    else
      var prefix := DecimalString(n / 10);
      var s := prefix + [DigitChar(n % 10)];
      assert s[..|s| - 1] == prefix;
      s
  }

  /**
    Reference tokenizer: the maximal runs of non-whitespace characters of `s`, found by
    scanning left to right.
  */
  function Words(s: string): (words: seq<string>)
    ensures forall k :: 0 <= k < |words| ==> words[k] != [] && NoSpace(words[k])
    decreases |s|
  {
    if s == [] then []
    else if IsSpace(s[0]) then Words(s[1..])
    else
      var n := SpaceIndex(s);
      [s[..n]] + Words(s[n..])
  }

  lemma {:induction false} SpaceIndexAppend(t: string, u: string)
    ensures SpaceIndex(t + u) == if SpaceIndex(t) < |t| then SpaceIndex(t) else |t| + SpaceIndex(u)
    decreases |t|
  {
    if t == [] {
      assert t + u == u;
    } else if !IsSpace(t[0]) {
      assert (t + u)[1..] == t[1..] + u;
      SpaceIndexAppend(t[1..], u);
    }
  }

  /** Leading whitespace contributes no word. */
  lemma {:induction false} WordsSkipSpace(w: string, t: string)
    requires AllSpace(w)
    ensures Words(w + t) == Words(t)
    decreases |w|
  {
    if w != [] {
      assert (w + t)[1..] == w[1..] + t;
      WordsSkipSpace(w[1..], t);
    } else {
      assert w + t == t;
    }
  }

  /** A non-empty run of non-whitespace followed by whitespace (or nothing) is one word. */
  lemma WordsOfWord(a: string, t: string)
    requires a != [] && NoSpace(a)
    requires t == [] || IsSpace(t[0])
    ensures Words(a + t) == [a] + Words(t)
  {
    SpaceIndexAppend(a, t);
    assert SpaceIndex(a) == |a|;
    assert SpaceIndex(t) == 0;
    assert (a + t)[..|a|] == a;
    assert (a + t)[|a|..] == t;
  }

  /** Trailing whitespace contributes no word. */
  lemma {:induction false} WordsDropSpace(t: string, w: string)
    requires AllSpace(w)
    ensures Words(t + w) == Words(t)
    decreases |t|
  {
    if t == [] {
      assert t + w == w;
      WordsSkipSpace(w, []);
      assert w + [] == w;
    } else if IsSpace(t[0]) {
      assert (t + w)[1..] == t[1..] + w;
      WordsDropSpace(t[1..], w);
    } else {
      var m := SpaceIndex(t);
      SpaceIndexAppend(t, w);
      assert (t + w)[0] == t[0];
      if m < |t| {
        assert SpaceIndex(t + w) == m;
        assert (t + w)[..m] == t[..m];
        assert (t + w)[m..] == t[m..] + w;
        WordsDropSpace(t[m..], w);
      } else {
        assert SpaceIndex(w) == 0;
        assert SpaceIndex(t + w) == m;
        assert (t + w)[..m] == t;
        assert (t + w)[m..] == w;
        WordsSkipSpace(w, []);
        assert w + [] == w;
        assert t[..m] == t && t[m..] == [];
      }
    }
  }

  /** Dropping the leading whitespace does not change the words. */
  lemma WordsTrimStart(s: string)
    ensures Words(TrimStart(s)) == Words(s)
  {
    var u := TrimStart(s);
    var gap := s[..|s| - |u|];
    TrimStartDropsSpace(s);
    assert s == gap + u;
    WordsSkipSpace(gap, u);
  }

  /** Dropping the trailing whitespace does not change the words. */
  lemma WordsTrimEnd(u: string)
    ensures Words(TrimEnd(u)) == Words(u)
  {
    var r := TrimEnd(u);
    var gap := u[|r|..];
    TrimEndDropsSpace(u);
    assert u == r + gap;
    WordsDropSpace(r, gap);
  }

  /** Trimming does not change the words. */
  lemma WordsTrim(s: string)
    ensures Words(Trim(s)) == Words(s)
  {
    WordsTrimStart(s);
    WordsTrimEnd(TrimStart(s));
  }

  /** On a trimmed string, `split(/\s+/)` yields exactly its words (and `[""]` when it is empty). */
  lemma {:induction false} SplitTrimmed(t: string)
    requires Trimmed(t)
    ensures Split(t) == if t == [] then [""] else Words(t)
    decreases |t|
  {
    if t != [] {
      var i := SpaceIndex(t);
      if i == |t| {
        assert t[..i] == t && t[i..] == [];
      } else {
        var tail := t[i..];
        var rest := TrimStart(tail);
        var gap := tail[..|tail| - |rest|];
        TrimStartDropsSpace(tail);
        assert tail == gap + rest;
        WordsSkipSpace(gap, rest);
        assert !IsSpace(tail[|tail| - 1]);
        assert rest != [];
        assert rest[|rest| - 1] == t[|t| - 1];
        SplitTrimmed(rest);
      }
    }
  }

  /** `trim()` then `split(/\s+/)`: the words of `s`, or one empty piece when it has none. */
  lemma SplitTrim(s: string)
    ensures Trim(s) == [] <==> Words(s) == []
    ensures Split(Trim(s)) == if Words(s) == [] then [""] else Words(s)
  {
    var t := Trim(s);
    WordsTrim(s);
    SplitTrimmed(t);
    if t != [] {
      assert Words(t) == [t[..SpaceIndex(t)]] + Words(t[SpaceIndex(t)..]);
    }
  }

  /** Lower-casing keeps a trimmed string trimmed. */
  lemma LowerTrimmed(t: string)
    requires Trimmed(t)
    ensures Trimmed(Lower(t))
  {
    if t != [] {
      LowerCharKeeps(t[0]);
      LowerCharKeeps(t[|t| - 1]);
    }
  }

  /**
    `trim().toLowerCase()` then `split(/\s+/)`: the lower-cased words of `s`, or one empty
    piece when it has none.
  */
  lemma SplitLowerTrim(s: string)
    ensures Split(Lower(Trim(s))) == if Words(s) == [] then [""] else LowerEach(Words(s))
  {
    var t := Trim(s);
    SplitTrim(s);
    LowerTrimmed(t);
    SplitTrimmed(Lower(t));
    WordsLower(t);
    WordsTrim(s);
  }

  lemma {:induction false} SpaceIndexLower(s: string)
    ensures SpaceIndex(Lower(s)) == SpaceIndex(s)
    decreases |s|
  {
    if s != [] && !IsSpace(s[0]) {
      assert Lower(s)[1..] == Lower(s[1..]);
      SpaceIndexLower(s[1..]);
    }
  }

  /** Lower-casing commutes with cutting a string in two. */
  lemma LowerSlices(s: string, n: nat)
    requires n <= |s|
    ensures Lower(s)[..n] == Lower(s[..n]) && Lower(s)[n..] == Lower(s[n..])
  {
  }

  lemma LowerEachCons(w: string, ws: seq<string>)
    ensures LowerEach([w] + ws) == [Lower(w)] + LowerEach(ws)
  {
  }

  /** Lower-casing a string lower-cases each of its words and keeps their number. */
  lemma {:induction false} WordsLower(s: string)
    ensures Words(Lower(s)) == LowerEach(Words(s))
    decreases |s|
  {
    var l := Lower(s);
    if s == [] {
      assert l == [];
    } else {
      assert l[0] == LowerChar(s[0]);
      LowerCharKeeps(s[0]);
      if IsSpace(s[0]) {
        LowerSlices(s, 1);
        assert Words(l) == Words(l[1..]);
        WordsLower(s[1..]);
      } else {
        var n := SpaceIndex(s);
        SpaceIndexLower(s);
        LowerSlices(s, n);
        assert Words(l) == [l[..n]] + Words(l[n..]);
        WordsLower(s[n..]);
        LowerEachCons(s[..n], Words(s[n..]));
      }
    }
  }

  lemma {:induction false} TrimStartLower(s: string)
    ensures TrimStart(Lower(s)) == Lower(TrimStart(s))
    decreases |s|
  {
    if s != [] {
      var l := Lower(s);
      assert l[0] == LowerChar(s[0]);
      LowerCharKeeps(s[0]);
      if IsSpace(s[0]) {
        assert l[1..] == Lower(s[1..]);
        assert TrimStart(l) == TrimStart(l[1..]);
        TrimStartLower(s[1..]);
      } else {
        assert TrimStart(l) == l;
      }
    }
  }

  lemma {:induction false} DigitRunLower(s: string)
    ensures DigitRun(Lower(s)) == DigitRun(s)
    decreases |s|
  {
    if s != [] && IsDigit(s[0]) {
      assert Lower(s)[1..] == Lower(s[1..]);
      DigitRunLower(s[1..]);
    }
  }

  lemma ReadDigitsLower(body: string)
    ensures ReadDigits(Lower(body)) == ReadDigits(body)
  {
    DigitRunLower(body);
    var n := DigitRun(body);
    assert Lower(body)[..n] == body[..n];
  }

  /** Lower-casing moves only the letters `A` to `Z`, which are neither whitespace, digits nor signs. */
  lemma LowerCharKeeps(c: char)
    ensures IsSpace(LowerChar(c)) == IsSpace(c)
    ensures IsDigit(c) ==> LowerChar(c) == c
    ensures IsDigit(LowerChar(c)) == IsDigit(c)
    ensures (LowerChar(c) == '-') == (c == '-') && (LowerChar(c) == '+') == (c == '+')
  {
  }

  lemma UnsignedLower(t: string)
    ensures Unsigned(Lower(t)) == Lower(Unsigned(t))
  {
    if t == [] {
      assert Lower(t) == [];
    } else {
      LowerCharKeeps(t[0]);
      assert Lower(t)[0] == LowerChar(t[0]);
      if t[0] == '-' || t[0] == '+' {
        assert Lower(t)[1..] == Lower(t[1..]);
      }
    }
  }

  /** A sign and digits read the same after lower-casing. */
  lemma ReadSignedLower(t: string)
    ensures ReadSigned(Lower(t)) == ReadSigned(t)
  {
    UnsignedLower(t);
    ReadDigitsLower(Unsigned(t));
    if t != [] {
      LowerCharKeeps(t[0]);
      assert Lower(t)[0] == LowerChar(t[0]);
    }
  }

  /** `parseInt` reads the same number from a string and from its lower-cased form. */
  lemma ParseIntLower(s: string)
    ensures ParseInt(Lower(s)) == ParseInt(s)
  {
    TrimStartLower(s);
    ReadSignedLower(TrimStart(s));
  }

  /** `parseInt` reads a run of digits followed by a non-digit as the value of the digits. */
  lemma ParseIntDigits(d: string, rest: string)
    requires d != [] && AllDigits(d)
    requires rest == [] || !IsDigit(rest[0])
    ensures ParseInt(d + rest) == Int(DigitsValue(d))
  {
    var s := d + rest;
    assert s[0] == d[0];
    LowerCharKeeps(d[0]);
    assert TrimStart(s) == s;
    assert Unsigned(s) == s;
    DigitRunAppend(d, rest);
    assert s[..|d|] == d;
  }

  /** Leading whitespace makes no difference to `TrimStart`. */
  lemma {:induction false} TrimStartSkipSpace(w: string, t: string)
    requires AllSpace(w)
    ensures TrimStart(w + t) == TrimStart(t)
    decreases |w|
  {
    if w == [] {
      assert w + t == t;
    } else {
      assert (w + t)[0] == w[0];
      assert (w + t)[1..] == w[1..] + t;
      TrimStartSkipSpace(w[1..], t);
    }
  }

  /** A sign is neither whitespace nor a digit. */
  predicate IsSign(sign: string) {
    sign == "" || sign == "+" || sign == "-"
  }

  /** `TrimStart` keeps a string that does not start with whitespace. */
  lemma TrimStartKeeps(t: string)
    requires t == [] || !IsSpace(t[0])
    ensures TrimStart(t) == t
  {
  }

  /** `parseInt` after leading whitespace reads what follows it. */
  lemma ParseIntSkipSpace(w: string, t: string)
    requires AllSpace(w) && (t == [] || !IsSpace(t[0]))
    ensures ParseInt(w + t) == ReadSigned(t)
  {
    TrimStartSkipSpace(w, t);
    TrimStartKeeps(t);
  }

  /** The text after an optional sign. */
  lemma UnsignedAfterSign(sign: string, body: string)
    requires IsSign(sign) && (body == [] || (body[0] != '+' && body[0] != '-'))
    ensures Unsigned(sign + body) == body
  {
    if sign == "" {
      assert sign + body == body;
    } else {
      assert (sign + body)[1..] == body;
    }
  }

  /** A run of digits followed by a non-digit reads as the value of the digits. */
  lemma ReadDigitsOfRun(d: string, rest: string)
    requires d != [] && AllDigits(d)
    requires rest == [] || !IsDigit(rest[0])
    ensures ReadDigits(d + rest) == Int(DigitsValue(d))
  {
    DigitRunAppend(d, rest);
    assert (d + rest)[..|d|] == d;
  }

  /** A digit is neither whitespace nor a sign. */
  lemma DigitIsNotSpace(c: char)
    requires IsDigit(c)
    ensures !IsSpace(c) && c != '+' && c != '-'
  {
  }

  /** An optional sign and a run of digits read as the signed value of the digits. */
  lemma ReadSignedDigits(sign: string, d: string, rest: string)
    requires IsSign(sign)
    requires d != [] && AllDigits(d)
    requires rest == [] || !IsDigit(rest[0])
    ensures sign + (d + rest) != [] && !IsSpace((sign + (d + rest))[0])
    ensures ReadSigned(sign + (d + rest)) == Int(if sign == "-" then -(DigitsValue(d) as int) else DigitsValue(d))
  {
    var body := d + rest;
    var c := d[0];
    assert body[0] == c;
    DigitIsNotSpace(c);
    if sign == "" {
      assert sign + body == body;
    } else {
      assert (sign + body)[0] == sign[0];
    }
    UnsignedAfterSign(sign, body);
    ReadDigitsOfRun(d, rest);
  }

  /**
    `parseInt(s, 10)` on whitespace, an optional sign, a run of digits and text that does not
    start with a digit: the value of the digits, negated after a minus sign.
  */
  lemma ParseIntReads(w: string, sign: string, d: string, rest: string)
    requires AllSpace(w) && IsSign(sign)
    requires d != [] && AllDigits(d)
    requires rest == [] || !IsDigit(rest[0])
    ensures ParseInt(w + sign + d + rest) == Int(if sign == "-" then -(DigitsValue(d) as int) else DigitsValue(d))
  {
    var t := sign + (d + rest);
    assert w + sign + d + rest == w + t;
    ReadSignedDigits(sign, d, rest);
    ParseIntSkipSpace(w, t);
  }

  /**
    `parseInt(s, 10)` is NaN when no digit follows the leading whitespace and the optional
    sign.
  */
  lemma ParseIntNoDigits(w: string, sign: string, rest: string)
    requires AllSpace(w) && IsSign(sign)
    requires rest == [] || !IsDigit(rest[0])
    requires sign == "" && rest != [] ==> !IsSpace(rest[0]) && rest[0] != '+' && rest[0] != '-'
    ensures ParseInt(w + sign + rest) == NaN
  {
    var t := sign + rest;
    assert w + sign + rest == w + t;
    if sign == "" {
      assert t == rest;
      ParseIntSkipSpace(w, t);
      UnsignedAfterSign(sign, rest);
    } else {
      assert t[0] == sign[0] && t[1..] == rest;
      ParseIntSkipSpace(w, t);
    }
  }

  /**
    `parseInt` reads back what `toString` writes, whatever non-digit text follows it:
    `parseInt("2024abc", 10)` is 2024.
  */
  lemma ParseIntDecimal(n: nat, rest: string)
    requires rest == [] || !IsDigit(rest[0])
    ensures ParseInt(DecimalString(n) + rest) == Int(n)
  {
    ParseIntDigits(DecimalString(n), rest);
  }

  lemma {:induction false} DigitRunAppend(d: string, rest: string)
    requires AllDigits(d)
    requires rest == [] || !IsDigit(rest[0])
    ensures DigitRun(d + rest) == |d|
    decreases |d|
  {
    if d == [] {
      assert d + rest == rest;
    } else {
      assert (d + rest)[1..] == d[1..] + rest;
      DigitRunAppend(d[1..], rest);
    }
  }

  /** One-word shape: whitespace, a word, whitespace. */
  lemma WordsOfOne(w1: string, a: string, w2: string)
    requires AllSpace(w1) && AllSpace(w2)
    requires a != [] && NoSpace(a)
    ensures Words(w1 + (a + w2)) == [a]
  {
    WordsSkipSpace(w1, a + w2);
    WordsOfWord(a, w2);
    WordsSkipSpace(w2, []);
    assert w2 + [] == w2;
  }

  /** Concatenation regrouped to the right. */
  lemma Regroup(w1: string, a: string, w2: string, b: string, w3: string)
    ensures w1 + a + w2 + b + w3 == w1 + (a + (w2 + (b + w3)))
  {
  }

  /** Two-word shape: whitespace, a word, whitespace, a word, whitespace. */
  lemma WordsOfTwo(w1: string, a: string, w2: string, b: string, w3: string)
    requires AllSpace(w1) && AllSpace(w2) && AllSpace(w3) && w2 != []
    requires a != [] && NoSpace(a) && b != [] && NoSpace(b)
    ensures Words(w1 + a + w2 + b + w3) == [a, b]
  {
    var rest := w2 + (b + w3);
    Regroup(w1, a, w2, b, w3);
    assert Words(rest) == [b] by {
      WordsOfOne(w2, b, w3);
    }
    assert Words(a + rest) == [a] + Words(rest) by {
      assert rest[0] == w2[0];
      WordsOfWord(a, rest);
    }
    assert Words(w1 + (a + rest)) == Words(a + rest) by {
      WordsSkipSpace(w1, a + rest);
    }
  }
}
