/** Python string operations the subtitle pipeline relies on, with the
    properties the codecs need: str.strip(), str.split(sep), sep.join(parts),
    the `in` test on strings, single-character str.replace, clamped slicing,
    and decimal digits for int formatting (`{n:02d}`) and parsing (`int()`). */
module Strings {

  /** A Python call that either returns a value or raises an exception with a message. */
  datatype Result<+T> = Ok(value: T) | Err(msg: string) {
    predicate IsFailure() { Err? }

    function PropagateFailure<U>(): Result<U>
      requires Err?
    {
      Err(msg)
    }

    function Extract(): T
      requires Ok?
    {
      value
    }
  }

  /** Python's None-or-value. */
  datatype Option<+T> = None | Some(value: T)

  // ---------------------------------------------------------------------
  // Whitespace and strip()

  /** Python's str.isspace() for a single character. */
  predicate IsSpace(c: char) {
    c == ' ' || ('\t' <= c <= '\r') || ('\U{1c}' <= c <= '\U{1f}')
    || c == '\U{85}' || c == '\U{a0}' || c == '\U{1680}'
    || ('\U{2000}' <= c <= '\U{200a}') || c == '\U{2028}' || c == '\U{2029}'
    || c == '\U{202f}' || c == '\U{205f}' || c == '\U{3000}'
  }

  /** str.lstrip(): drops the longest all-whitespace prefix. */
  function LStrip(s: string): string
  {
    if |s| > 0 && IsSpace(s[0]) then LStrip(s[1..]) else s
  }

  /** lstrip() keeps a suffix that does not start with whitespace, and
      everything it drops is whitespace. */
  lemma {:induction false} LStripSpec(s: string)
    ensures var r := LStrip(s);
      && |r| <= |s| && r == s[|s| - |r|..]
      && (r == [] || !IsSpace(r[0]))
      && (forall i :: 0 <= i < |s| - |r| ==> IsSpace(s[i]))
    decreases |s|
  {
    if |s| > 0 && IsSpace(s[0]) {
      LStripSpec(s[1..]);
    }
  }

  /** str.rstrip(): drops the longest all-whitespace suffix. */
  function RStrip(s: string): string
  {
    if |s| > 0 && IsSpace(s[|s| - 1]) then RStrip(s[..|s| - 1]) else s
  }

  /** rstrip() keeps a prefix that does not end with whitespace, and
      everything it drops is whitespace. */
  lemma {:induction false} RStripSpec(s: string)
    ensures var r := RStrip(s);
      && |r| <= |s| && r == s[..|r|]
      && (r == [] || !IsSpace(r[|r| - 1]))
      && (forall i :: |r| <= i < |s| ==> IsSpace(s[i]))
    decreases |s|
  {
    if |s| > 0 && IsSpace(s[|s| - 1]) {
      RStripSpec(s[..|s| - 1]);
    }
  }

  /** str.strip(): the input without leading and trailing whitespace. */
  function Strip(s: string): (r: string)
  {
    LStrip(RStrip(s))
  }

  /** Strip leaves a string alone exactly when it neither starts nor ends with whitespace. */
  lemma StripIdentity(s: string)
    ensures Strip(s) == s <==> (s == [] || (!IsSpace(s[0]) && !IsSpace(s[|s| - 1])))
  {
    if s != [] && !IsSpace(s[0]) && !IsSpace(s[|s| - 1]) {
      assert RStrip(s) == s;
    } else if s != [] {
      RStripSpec(s);
      LStripSpec(RStrip(s));
    }
  }

  /** A non-empty strip() result starts and ends with a non-whitespace character. */
  lemma StripEnds(s: string)
    ensures var r := Strip(s); r == [] || (!IsSpace(r[0]) && !IsSpace(r[|r| - 1]))
  {
    var t := RStrip(s);
    RStripSpec(s);
    LStripSpec(t);
    var r := LStrip(t);
    if r != [] {
      assert r[|r| - 1] == t[|t| - 1];
    }
  }

  /** Stripping a string, then padding it with whitespace, gives back the stripped string. */
  lemma StripPadded(core: string, pre: string, post: string)
    requires core == [] || (!IsSpace(core[0]) && !IsSpace(core[|core| - 1]))
    requires core != [] || |pre| + |post| == 0
    requires forall i :: 0 <= i < |pre| ==> IsSpace(pre[i])
    requires forall i :: 0 <= i < |post| ==> IsSpace(post[i])
    ensures Strip(pre + core + post) == core
  {
    if core != [] {
      var s := pre + core + post;
      RStripTail(pre + core, post);
      assert RStrip(s) == pre + core;
      LStripHead(pre, core);
    }
  }

  lemma {:induction false} RStripTail(a: string, b: string)
    requires a != [] && !IsSpace(a[|a| - 1])
    requires forall i :: 0 <= i < |b| ==> IsSpace(b[i])
    ensures RStrip(a + b) == a
    decreases |b|
  {
    if b != [] {
      assert (a + b)[..|a + b| - 1] == a + b[..|b| - 1];
      RStripTail(a, b[..|b| - 1]);
    } else {
      assert a + b == a;
    }
  }

  lemma {:induction false} LStripHead(a: string, b: string)
    requires b != [] && !IsSpace(b[0])
    requires forall i :: 0 <= i < |a| ==> IsSpace(a[i])
    ensures LStrip(a + b) == b
    decreases |a|
  {
    if a != [] {
      assert (a + b)[1..] == a[1..] + b;
      LStripHead(a[1..], b);
    } else {
      assert a + b == b;
    }
  }

  // ---------------------------------------------------------------------
  // Substring occurrence and `in`

  /** `sep` occurs in `s` starting at index `i`. */
  predicate MatchAt(s: string, sep: string, i: int) {
    0 <= i && i + |sep| <= |s| && s[i..i + |sep|] == sep
  }

  /** Python's `sub in s`. */
  predicate Contains(s: string, sub: string) {
    exists i | 0 <= i <= |s| :: MatchAt(s, sub, i)
  }

  /** No occurrence of `sep` starts before index `n` of `s`. */
  predicate NoMatchBefore(s: string, sep: string, n: int) {
    forall i | 0 <= i < n :: !MatchAt(s, sep, i)
  }

  /** `p` is a clean piece for `sep`: when `sep` follows `p`, the first
      occurrence of `sep` is the one right after `p`. */
  predicate Unbroken(p: string, sep: string) {
    NoMatchBefore(p + sep, sep, |p|)
  }

  lemma MatchShift(s: string, sep: string, i: int)
    requires |s| > 0
    ensures MatchAt(s[1..], sep, i) <==> (i >= 0 && MatchAt(s, sep, i + 1))
  {
  }

  lemma MatchExtend(a: string, b: string, sep: string, i: int)
    requires MatchAt(a, sep, i)
    ensures MatchAt(a + b, sep, i)
  {
  }

  /** A piece with no character equal to the separator's first one is unbroken. */
  lemma UnbrokenByFirstChar(p: string, sep: string)
    requires sep != []
    requires forall i :: 0 <= i < |p| ==> p[i] != sep[0]
    ensures Unbroken(p, sep)
  {
    forall i | 0 <= i < |p|
      ensures !MatchAt(p + sep, sep, i)
    {
      assert (p + sep)[i] == p[i];
      if i + |sep| <= |p + sep| {
        assert (p + sep)[i..i + |sep|][0] == (p + sep)[i];
      }
    }
  }

  /** An unbroken piece contains no occurrence of the separator. */
  lemma UnbrokenNoMatch(p: string, sep: string)
    requires sep != []
    requires Unbroken(p, sep)
    ensures NoMatchBefore(p, sep, |p| + 1)
  {
    forall i | 0 <= i < |p| + 1
      ensures !MatchAt(p, sep, i)
    {
      if i + |sep| <= |p| {
        assert !MatchAt(p + sep, sep, i);
        assert (p + sep)[i..i + |sep|] == p[i..i + |sep|];
      }
    }
  }

  /** No comma in a string. */
  predicate NoComma(s: string) {
    forall i :: 0 <= i < |s| ==> s[i] != ','
  }

  /** No occurrence of `c` in `s`. */
  predicate NoChar(s: string, c: char) {
    forall i :: 0 <= i < |s| ==> s[i] != c
  }

  /** Two texts without `c` glued hold no `c`. */
  lemma NoCharGlue(a: string, b: string, c: char)
    requires NoChar(a, c) && NoChar(b, c)
    ensures NoChar(a + b, c)
  {
    forall i | 0 <= i < |a + b|
      ensures (a + b)[i] != c
    {
      if i < |a| { assert (a + b)[i] == a[i]; } else { assert (a + b)[i] == b[i - |a|]; }
    }
  }

  /** What reading text in Python's universal-newlines mode (the default of
      `open(path, 'r')`) makes of the characters stored: each `\r\n` and
      each lone `\r` becomes `\n`. No `\r` is left, and text without `\r`
      reads back unchanged. */
  function UniversalNewlines(s: string): (r: string)
    ensures |r| <= |s|
    ensures NoChar(r, '\r')
    ensures NoChar(s, '\r') ==> r == s
    decreases |s|
  {
    if s == [] then []
    else if s[0] == '\r' then "\n" + UniversalNewlines(if |s| > 1 && s[1] == '\n' then s[2..] else s[1..])
    else [s[0]] + UniversalNewlines(s[1..])
  }

  /** No two adjacent characters of `s` are both `c`. */
  predicate NoDouble(s: string, c: char) {
    forall i :: 0 <= i < |s| - 1 ==> !(s[i] == c && s[i + 1] == c)
  }

  /** `s` does not contain `cc` exactly when no two adjacent characters are `c`. */
  lemma NoDoubleContains(s: string, c: char)
    ensures !Contains(s, [c, c]) <==> NoDouble(s, c)
  {
    if !Contains(s, [c, c]) {
      forall i | 0 <= i < |s| - 1
        ensures !(s[i] == c && s[i + 1] == c)
      {
        assert !MatchAt(s, [c, c], i);
        assert s[i..i + 2][0] == s[i] && s[i..i + 2][1] == s[i + 1];
      }
    } else {
      var i :| 0 <= i <= |s| && MatchAt(s, [c, c], i);
      assert s[i..i + 2][0] == s[i] && s[i..i + 2][1] == s[i + 1];
    }
  }

  /** A piece without `cc` that does not end in `c` is unbroken for `cc`. */
  lemma UnbrokenPair(p: string, c: char)
    requires NoDouble(p, c)
    requires p == [] || p[|p| - 1] != c
    ensures Unbroken(p, [c, c])
  {
    var q := p + [c, c];
    forall i | 0 <= i < |p|
      ensures !MatchAt(q, [c, c], i)
    {
      assert q[i] == p[i];
      if i + 1 < |p| {
        assert q[i + 1] == p[i + 1];
      }
      assert q[i..i + 2][0] == q[i] && q[i..i + 2][1] == q[i + 1];
    }
  }

  /** Gluing two pieces without `cc` around one `c` creates no `cc`, when
      neither piece touches the glue with a `c` of its own. */
  lemma NoDoubleGlue(a: string, b: string, c: char)
    requires NoDouble(a, c) && NoDouble(b, c)
    requires a == [] || a[|a| - 1] != c
    requires b == [] || b[0] != c
    ensures NoDouble(a + [c] + b, c)
  {
  }

  // ---------------------------------------------------------------------
  // str.split(sep) and sep.join(parts)

  /** Python's s.split(sep) for a non-empty separator: scan left to right,
      cut at each non-overlapping occurrence. */
  function Split(s: string, sep: string): (r: seq<string>)
    requires sep != []
    ensures |r| >= 1
    decreases |s|
  {
    if |s| < |sep| then [s]
    else if s[..|sep|] == sep then [[]] + Split(s[|sep|..], sep)
    else
      var rest := Split(s[1..], sep);
      [[s[0]] + rest[0]] + rest[1..]
  }

  /** Python's sep.join(parts). */
  function Join(sep: string, parts: seq<string>): string
  {
    if parts == [] then []
    else if |parts| == 1 then parts[0]
    else parts[0] + sep + Join(sep, parts[1..])
  }

  /** A join of non-empty parts starts with the first part's first character
      and ends with the last part's last character. */
  lemma {:induction false} JoinEnds(sep: string, parts: seq<string>)
    requires parts != [] && forall k :: 0 <= k < |parts| ==> parts[k] != []
    ensures var j := Join(sep, parts);
      |j| > 0 && j[0] == parts[0][0] && j[|j| - 1] == parts[|parts| - 1][|parts[|parts| - 1]| - 1]
    decreases |parts|
  {
    if |parts| > 1 {
      JoinEnds(sep, parts[1..]);
      assert parts[1..][|parts| - 2] == parts[|parts| - 1];
    }
  }

  lemma {:induction false} JoinAppend(sep: string, parts: seq<string>, p: string)
    requires parts != []
    ensures Join(sep, parts + [p]) == Join(sep, parts) + sep + p
    decreases |parts|
  {
    if |parts| == 1 {
      assert parts + [p] == [parts[0], p];
    } else {
      assert (parts + [p])[1..] == parts[1..] + [p];
      JoinAppend(sep, parts[1..], p);
    }
  }

  /** A join of a part followed by more parts. */
  lemma JoinCons(sep: string, p: string, rest: seq<string>)
    requires rest != []
    ensures Join(sep, [p] + rest) == p + sep + Join(sep, rest)
  {
  }

  /** Splitting a string with no occurrence of the separator gives the string alone. */
  lemma {:induction false} SplitWhole(s: string, sep: string)
    requires sep != []
    requires NoMatchBefore(s, sep, |s|)
    ensures Split(s, sep) == [s]
    decreases |s|
  {
    if |s| >= |sep| {
      assert !MatchAt(s, sep, 0);
      forall i | 0 <= i < |s| - 1
        ensures !MatchAt(s[1..], sep, i)
      {
        MatchShift(s, sep, i);
      }
      SplitWhole(s[1..], sep);
      assert [s[0]] + s[1..] == s;
    }
  }

  /** Splitting `a + sep + b`, where `a` is unbroken, cuts right after `a`. */
  lemma {:induction false} SplitAfter(a: string, b: string, sep: string)
    requires sep != []
    requires Unbroken(a, sep)
    ensures Split(a + sep + b, sep) == [a] + Split(b, sep)
    decreases |a|
  {
    var s := a + sep + b;
    if a == [] {
      assert s[..|sep|] == sep;
      assert s[|sep|..] == b;
    } else {
      assert !MatchAt(a + sep, sep, 0);
      assert (a + sep)[0..|sep|] == s[..|sep|];
      assert s[1..] == a[1..] + sep + b;
      forall i | 0 <= i < |a| - 1
        ensures !MatchAt(a[1..] + sep, sep, i)
      {
        assert (a + sep)[1..] == a[1..] + sep;
        MatchShift(a + sep, sep, i);
      }
      SplitAfter(a[1..], b, sep);
      assert [a[0]] + a[1..] == a;
    }
  }

  /** SplitAfter read piece by piece: the first piece, then the rest. */
  lemma SplitHead(a: string, rest: string, sep: string)
    requires sep != []
    requires Unbroken(a, sep)
    ensures var r := Split(a + sep + rest, sep); |r| >= 2 && r[0] == a && r[1..] == Split(rest, sep)
  {
    SplitAfter(a, rest, sep);
  }

  /** join undoes split: no separator occurrence is lost or invented. */
  lemma {:induction false} JoinSplit(s: string, sep: string)
    requires sep != []
    ensures Join(sep, Split(s, sep)) == s
    decreases |s|
  {
    if |s| < |sep| {
    } else if s[..|sep|] == sep {
      var rest := Split(s[|sep|..], sep);
      JoinSplit(s[|sep|..], sep);
      assert ([[]] + rest)[1..] == rest;
      assert s == [] + sep + s[|sep|..];
    } else {
      var rest := Split(s[1..], sep);
      JoinSplit(s[1..], sep);
      JoinConsHead(s[0], rest, sep);
      assert [s[0]] + s[1..] == s;
    }
  }

  /** Gluing a character onto the first part glues it onto the joined string. */
  lemma JoinConsHead(c: char, parts: seq<string>, sep: string)
    requires parts != []
    ensures Join(sep, [[c] + parts[0]] + parts[1..]) == [c] + Join(sep, parts)
  {
  }

  /** split undoes join when every part is unbroken. */
  lemma {:induction false} SplitJoin(parts: seq<string>, sep: string)
    requires sep != [] && parts != []
    requires forall k :: 0 <= k < |parts| ==> Unbroken(parts[k], sep)
    ensures Split(Join(sep, parts), sep) == parts
    decreases |parts|
  {
    if |parts| == 1 {
      UnbrokenNoMatch(parts[0], sep);
      SplitWhole(parts[0], sep);
    } else {
      SplitJoin(parts[1..], sep);
      SplitAfter(parts[0], Join(sep, parts[1..]), sep);
      assert [parts[0]] + parts[1..] == parts;
    }
  }

  /** A string containing the separator splits into at least two pieces,
      and a string without it into exactly one. */
  lemma {:induction false} SplitCount(s: string, sep: string)
    requires sep != []
    ensures Contains(s, sep) ==> |Split(s, sep)| >= 2
    ensures !Contains(s, sep) ==> Split(s, sep) == [s]
    decreases |s|
  {
    if Contains(s, sep) {
      var i :| 0 <= i <= |s| && MatchAt(s, sep, i);
      if |s| >= |sep| && s[..|sep|] != sep {
        assert i != 0;
        MatchShift(s, sep, i - 1);
        assert MatchAt(s[1..], sep, i - 1);
        SplitCount(s[1..], sep);
      }
    } else {
      SplitWhole(s, sep);
    }
  }

  // ---------------------------------------------------------------------
  // Character replacement and slicing

  /** s.replace(a, b) for single characters `a` and `b`. */
  function ReplaceChar(s: string, a: char, b: char): (r: string)
    ensures |r| == |s|
  {
    seq(|s|, i requires 0 <= i < |s| => if s[i] == a then b else s[i])
  }

  /** After the replacement no `a` is left, and only the characters that
      were `a` have changed. */
  lemma ReplaceCharSpec(s: string, a: char, b: char)
    requires a != b
    ensures var r := ReplaceChar(s, a, b);
      && (forall i :: 0 <= i < |r| ==> r[i] != a)
      && (forall i :: 0 <= i < |s| && r[i] != s[i] ==> s[i] == a)
      && (forall i :: 0 <= i < |s| && s[i] == a ==> r[i] == b)
  {
  }

  lemma ReplaceCharConcat(x: string, y: string, a: char, b: char)
    ensures ReplaceChar(x + y, a, b) == ReplaceChar(x, a, b) + ReplaceChar(y, a, b)
  {
  }

  /** Replacing a character that does not occur changes nothing. */
  lemma ReplaceCharAbsent(x: string, a: char, b: char)
    requires forall i :: 0 <= i < |x| ==> x[i] != a
    ensures ReplaceChar(x, a, b) == x
  {
  }

  /** Python's s[i:j] for non-negative bounds: out-of-range bounds are clamped. */
  function Slice(s: string, i: nat, j: nat): (r: string)
    ensures |r| <= |s| && |r| <= if j <= i then 0 else j - i
    ensures i <= j <= |s| ==> r == s[i..j]
  {
    var lo := if i <= |s| then i else |s|;
    var hi := if j <= |s| then j else |s|;
    if lo <= hi then s[lo..hi] else []
  }

  /** Python's s.lstrip(c): every leading copy of `c` removed. */
  function LStripChar(s: string, c: char): (r: string)
    ensures |r| <= |s| && r == s[|s| - |r|..]
    ensures r == [] || r[0] != c
    ensures forall i :: 0 <= i < |s| - |r| ==> s[i] == c
  {
    if |s| > 0 && s[0] == c then LStripChar(s[1..], c) else s
  }

  // ---------------------------------------------------------------------
  // Decimal digits

  predicate IsDigit(c: char) { '0' <= c <= '9' }

  predicate AllDigits(s: string) { forall i :: 0 <= i < |s| ==> IsDigit(s[i]) }

  /** A string of digits is its own strip(). */
  lemma StripDigits(s: string)
    requires AllDigits(s)
    ensures Strip(s) == s
  {
  }

  function DigitChar(d: nat): (c: char)
    requires d < 10
    ensures IsDigit(c)
  {
    ('0' as int + d) as char
  }

  function DigitValue(c: char): (d: nat)
    requires IsDigit(c)
    ensures d < 10 && DigitChar(d) == c
  {
    c as int - '0' as int
  }

  function Pow10(k: nat): (p: nat)
    ensures p >= 1
  {
    if k == 0 then 1 else 10 * Pow10(k - 1)
  }

  /** The decimal representation of a natural number, most significant digit first. */
  function Decimal(n: nat): (r: string)
    ensures |r| >= 1 && AllDigits(r)
    decreases n
  {
    if n < 10 then [DigitChar(n)] else Decimal(n / 10) + [DigitChar(n % 10)]
  }

  /** The value of a string of decimal digits (int() without its checks). */
  function DigitsValue(s: string): nat
    requires AllDigits(s)
  {
    if s == [] then 0 else DigitsValue(s[..|s| - 1]) * 10 + DigitValue(s[|s| - 1])
  }

  function Zeros(k: nat): (r: string)
    ensures |r| == k && AllDigits(r)
    ensures forall i :: 0 <= i < k ==> r[i] == '0'
  {
    if k == 0 then [] else ['0'] + Zeros(k - 1)
  }

  /** Python's f"{n:0wd}" for n >= 0: the decimal digits, left-padded with
      zeros to at least `w` characters; never truncated. */
  function PadZero(n: nat, w: nat): (r: string)
    ensures AllDigits(r)
  {
    var d := Decimal(n);
    (if |d| < w then Zeros(w - |d|) else []) + d
  }

  /** Reading back a decimal representation gives the number. */
  lemma {:induction false} DecimalValue(n: nat)
    ensures DigitsValue(Decimal(n)) == n
    decreases n
  {
    if n >= 10 {
      DecimalValue(n / 10);
      var d := Decimal(n);
      assert d[..|d| - 1] == Decimal(n / 10);
    }
  }

  /** Appending k zeros multiplies the value by 10^k. */
  lemma {:induction false} ZerosAfter(f: string, k: nat)
    requires AllDigits(f)
    ensures AllDigits(f + Zeros(k)) && DigitsValue(f + Zeros(k)) == DigitsValue(f) * Pow10(k)
    decreases k
  {
    var s := f + Zeros(k);
    assert AllDigits(s);
    if k == 0 {
      assert s == f;
    } else {
      var t := f + Zeros(k - 1);
      ZerosAfter(f, k - 1);
      assert s == t + ['0'];
      assert s[..|s| - 1] == t;
      assert DigitsValue(s) == DigitsValue(t) * 10;
      TimesTen(DigitsValue(f), Pow10(k - 1));
    }
  }

  lemma TimesTen(v: nat, p: nat)
    ensures v * p * 10 == v * (10 * p)
  {
  }

  /** A string of k digits denotes a number below 10^k. */
  lemma {:induction false} DigitsValueBound(s: string)
    requires AllDigits(s)
    ensures DigitsValue(s) < Pow10(|s|)
    decreases |s|
  {
    if s != [] {
      DigitsValueBound(s[..|s| - 1]);
    }
  }

  /** A leading zero does not change the value of a digit string. */
  lemma {:induction false} LeadingZero(s: string)
    requires AllDigits(s)
    ensures DigitsValue(['0'] + s) == DigitsValue(s)
    decreases |s|
  {
    if s != [] {
      assert (['0'] + s)[..|s|] == ['0'] + s[..|s| - 1];
      LeadingZero(s[..|s| - 1]);
    }
  }

  lemma {:induction false} LeadingZeros(k: nat, s: string)
    requires AllDigits(s)
    ensures DigitsValue(Zeros(k) + s) == DigitsValue(s)
    decreases k
  {
    if k > 0 {
      LeadingZeros(k - 1, s);
      var t := Zeros(k - 1) + s;
      assert AllDigits(t);
      assert Zeros(k) == ['0'] + Zeros(k - 1);
      assert Zeros(k) + s == ['0'] + t;
      LeadingZero(t);
    } else {
      assert Zeros(k) + s == s;
    }
  }

  /** Zero padding is read back as the padded number. */
  lemma PadZeroValue(n: nat, w: nat)
    ensures DigitsValue(PadZero(n, w)) == n
  {
    DecimalValue(n);
    var d := Decimal(n);
    if |d| < w {
      LeadingZeros(w - |d|, d);
    } else {
      assert PadZero(n, w) == d;
    }
  }

  /** A number has at most `k` decimal digits exactly when it is below 10^k. */
  lemma {:induction false} DecimalLength(n: nat, k: nat)
    requires k >= 1
    ensures |Decimal(n)| <= k <==> n < Pow10(k)
    decreases n
  {
    if n >= 10 {
      if k == 1 {
        assert Pow10(1) == 10;
        assert |Decimal(n)| >= 2 by { assert |Decimal(n)| == |Decimal(n / 10)| + 1; }
      } else {
        DecimalLength(n / 10, k - 1);
      }
    } else {
      if k > 1 { assert Pow10(k) == 10 * Pow10(k - 1); }
    }
  }

  /** Zero padding yields exactly `w` characters for numbers of at most `w` digits,
      and more otherwise. */
  lemma PadZeroLength(n: nat, w: nat)
    requires w >= 1
    ensures n < Pow10(w) ==> |PadZero(n, w)| == w
    ensures n >= Pow10(w) ==> |PadZero(n, w)| > w
  {
    DecimalLength(n, w);
  }

  /** A decimal representation starts with `0` only for zero itself. */
  lemma {:induction false} DecimalLead(n: nat)
    ensures Decimal(n)[0] == '0' <==> n == 0
    decreases n
  {
    if n >= 10 {
      DecimalLead(n / 10);
      assert Decimal(n)[0] == Decimal(n / 10)[0];
    }
  }

  /** Python's str(i) for an int: a `-` for a negative number, then the
      digits of its magnitude, with no leading zero. */
  function IntToString(i: int): (r: string)
    ensures |r| >= 1
    ensures r[0] == '-' <==> i < 0
    ensures var digits := if i < 0 then r[1..] else r;
      && |digits| >= 1 && AllDigits(digits)
      && DigitsValue(digits) == (if i < 0 then -i else i)
      && (digits[0] == '0' ==> i == 0)
  {
    var n: nat := if i < 0 then -i else i;
    DecimalValue(n);
    DecimalLead(n);
    if i < 0 then "-" + Decimal(n) else Decimal(n)
  }
}
