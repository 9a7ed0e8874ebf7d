/**
 * The string helpers and the field validators of src/util.c.
 *
 * A C string is modelled by the characters before its terminating NUL, as a
 * `string`; `str_trim` and `str_tolower`, which rewrite a buffer in place, are
 * also given on `array<char>` buffers that hold a NUL-terminated string.
 * Characters are classified as in the C locale (ASCII).
 */
module Util {
  import opened Wrappers

  const IntMin: int := -0x8000_0000
  const IntMax: int := 0x7FFF_FFFF
  const LongMin: int := -0x8000_0000_0000_0000
  const LongMax: int := 0x7FFF_FFFF_FFFF_FFFF

  // ---------------------------------------------------------------------
  // Characters
  // ---------------------------------------------------------------------

  /** `isspace` in the C locale. */
  predicate IsSpace(c: char) {
    c == ' ' || c == '\t' || c == '\n' || c == '\r' || c == '\U{B}' || c == '\U{C}'
  }

  predicate IsDigit(c: char) {
    '0' <= c <= '9'
  }

  /** `ascii_tolower_int`, and `tolower` in the C locale. */
  function ToLowerChar(c: char): char {
    if 'A' <= c <= 'Z' then (c as int - 'A' as int + 'a' as int) as char else c
  }

  predicate AllSpace(s: string) {
    forall i :: 0 <= i < |s| ==> IsSpace(s[i])
  }

  predicate AllDigits(s: string) {
    forall i :: 0 <= i < |s| ==> IsDigit(s[i])
  }

  /** The first `n` characters of `s` (what `strncpy` into an `n + 1` byte buffer keeps). */
  function Prefix(s: string, n: nat): (r: string)
    ensures |r| <= n && |r| <= |s| && r == s[..|r|]
    ensures |s| <= n ==> r == s
  {
    if |s| <= n then s else s[..n]
  }

  // ---------------------------------------------------------------------
  // Scanning helpers shared by trimming and number parsing
  // ---------------------------------------------------------------------

  /** The first index at or after `i` that does not hold whitespace. */
  function SkipSpaces(s: string, i: nat): (j: nat)
    requires i <= |s|
    ensures i <= j <= |s|
    ensures forall k :: i <= k < j ==> IsSpace(s[k])
    ensures j < |s| ==> !IsSpace(s[j])
    decreases |s| - i
  {
    if i < |s| && IsSpace(s[i]) then SkipSpaces(s, i + 1) else i
  }

  /** The first index at or after `i` that does not hold a decimal digit. */
  function SkipDigits(s: string, i: nat): (j: nat)
    requires i <= |s|
    ensures i <= j <= |s|
    ensures forall k :: i <= k < j ==> IsDigit(s[k])
    ensures j < |s| ==> !IsDigit(s[j])
    decreases |s| - i
  {
    if i < |s| && IsDigit(s[i]) then SkipDigits(s, i + 1) else i
  }

  /** A whitespace run that ends at a non-space character (or the end) is what SkipSpaces finds. */
  lemma {:induction false} SkipSpacesExact(s: string, i: nat, j: nat)
    requires i <= j <= |s|
    requires forall k :: i <= k < j ==> IsSpace(s[k])
    requires j < |s| ==> !IsSpace(s[j])
    ensures SkipSpaces(s, i) == j
    decreases j - i
  {
    if i < j {
      SkipSpacesExact(s, i + 1, j);
    }
  }

  /** A digit run that ends at a non-digit (or the end) is what SkipDigits finds. */
  lemma {:induction false} SkipDigitsExact(s: string, i: nat, j: nat)
    requires i <= j <= |s|
    requires forall k :: i <= k < j ==> IsDigit(s[k])
    requires j < |s| ==> !IsDigit(s[j])
    ensures SkipDigits(s, i) == j
    decreases j - i
  {
    if i < j {
      SkipDigitsExact(s, i + 1, j);
    }
  }

  // ---------------------------------------------------------------------
  // str_trim
  // ---------------------------------------------------------------------

  /** The end of `s` once the trailing whitespace at or after `lo` is dropped. */
  function TrailingCut(s: string, lo: nat): (n: nat)
    requires lo <= |s|
    ensures lo <= n <= |s|
    ensures forall i :: n <= i < |s| ==> IsSpace(s[i])
    ensures lo < n ==> !IsSpace(s[n - 1])
    decreases |s|
  {
    if lo < |s| && IsSpace(s[|s| - 1]) then TrailingCut(s[..|s| - 1], lo) else |s|
  }

  /** A cut point past which only whitespace follows, and before which a non-space stands, is TrailingCut. */
  lemma {:induction false} TrailingCutExact(s: string, lo: nat, n: nat)
    requires lo <= n <= |s|
    requires forall i :: n <= i < |s| ==> IsSpace(s[i])
    requires lo < n ==> !IsSpace(s[n - 1])
    ensures TrailingCut(s, lo) == n
    decreases |s|
  {
    if n < |s| {
      TrailingCutExact(s[..|s| - 1], lo, n);
    }
  }

  /** The value `str_trim` leaves in its buffer: leading and trailing whitespace removed. */
  function Trim(s: string): (t: string)
    ensures SkipSpaces(s, 0) + |t| <= |s|
    ensures t == s[SkipSpaces(s, 0)..SkipSpaces(s, 0) + |t|]
    ensures AllSpace(s[..SkipSpaces(s, 0)]) && AllSpace(s[SkipSpaces(s, 0) + |t|..])
    ensures t != [] ==> !IsSpace(t[0]) && !IsSpace(t[|t| - 1])
  {
    var a := SkipSpaces(s, 0);
    s[a..TrailingCut(s, a)]
  }

  /** Trimming a second time changes nothing. */
  lemma TrimIdempotent(s: string)
    ensures Trim(Trim(s)) == Trim(s)
  {
    var t := Trim(s);
    if t != [] {
      SkipSpacesExact(t, 0, 0);
      TrailingCutExact(t, 0, |t|);
    } else {
      SkipSpacesExact(t, 0, 0);
    }
  }

  /** Trimming leaves nothing exactly when the text is all whitespace. */
  lemma TrimEmptyIffAllSpace(s: string)
    ensures Trim(s) == [] <==> AllSpace(s)
  {
    var a := SkipSpaces(s, 0);
    if AllSpace(s) {
      SkipSpacesExact(s, 0, |s|);
    }
    if Trim(s) == [] {
      assert a == |s|;
      assert s[..a] == s;
    }
  }

  /** Text that starts and ends with a non-space character is left alone by trimming. */
  lemma TrimOfTrimmed(s: string)
    requires s != [] ==> !IsSpace(s[0]) && !IsSpace(s[|s| - 1])
    ensures Trim(s) == s
  {
    SkipSpacesExact(s, 0, 0);
    TrailingCutExact(s, 0, |s|);
  }

  /** Whitespace around a text with non-space ends is exactly what trimming removes. */
  lemma TrimPadded(w1: string, t: string, w2: string)
    requires AllSpace(w1) && AllSpace(w2)
    requires t != [] && !IsSpace(t[0]) && !IsSpace(t[|t| - 1])
    ensures Trim(w1 + t + w2) == t
  {
    var s := w1 + t + w2;
    forall k | 0 <= k < |w1| ensures IsSpace(s[k]) {
      assert s[k] == w1[k];
    }
    assert s[|w1|] == t[0];
    SkipSpacesExact(s, 0, |w1|);
    forall k | |w1| + |t| <= k < |s| ensures IsSpace(s[k]) {
      assert s[k] == w2[k - |w1| - |t|];
    }
    assert s[|w1| + |t| - 1] == t[|t| - 1];
    TrailingCutExact(s, |w1|, |w1| + |t|);
    assert s[|w1|..|w1| + |t|] == t;
  }

  /** strlen: the index of the first NUL, or |s| when there is none. */
  function StrLen(s: seq<char>): (n: nat)
    ensures n <= |s|
    ensures forall i :: 0 <= i < n ==> s[i] != '\0'
    ensures n < |s| ==> s[n] == '\0'
  {
    if |s| == 0 || s[0] == '\0' then 0 else 1 + StrLen(s[1..])
  }

  lemma {:induction false} StrLenExact(s: seq<char>, n: nat)
    requires n <= |s|
    requires forall i :: 0 <= i < n ==> s[i] != '\0'
    requires n < |s| ==> s[n] == '\0'
    ensures StrLen(s) == n
  {
    if n > 0 {
      StrLenExact(s[1..], n - 1);
    }
  }

  /** The C string held by a buffer: everything before its first NUL. */
  function Content(s: seq<char>): string {
    s[..StrLen(s)]
  }

  /** `strlen` on a NUL-terminated buffer. */
  method CStrLen(s: array<char>) returns (n: nat)
    requires StrLen(s[..]) < s.Length
    ensures n == StrLen(s[..])
  {
    n := 0;
    while s[n] != '\0'
      invariant n <= StrLen(s[..])
      invariant forall i :: 0 <= i < n ==> s[i] != '\0'
      decreases s.Length - n
    {
      n := n + 1;
    }
    StrLenExact(s[..], n);
  }

  /** The `memmove` of `str_trim`: the characters in [start, end) are copied to the front. */
  method MoveToFront(s: array<char>, start: nat, end: nat)
    requires start <= end <= s.Length
    modifies s
    ensures s[..end - start] == old(s[start..end])
    ensures s[end - start..] == old(s[end - start..])
  {
    ghost var orig := s[..];
    var k := 0;
    while k < end - start
      invariant 0 <= k <= end - start
      invariant forall i :: 0 <= i < k ==> s[i] == orig[i + start]
      invariant forall i :: k <= i < s.Length ==> s[i] == orig[i]
    {
      s[k] := s[k + start];
      k := k + 1;
    }
    assert s[..end - start] == orig[start..end];
  }

  /** The two scans of `str_trim` over a string of length `len`: where the kept text starts and ends. */
  method TrimBounds(s: array<char>, len: nat) returns (start: nat, end: nat)
    requires len <= s.Length
    ensures start <= end <= len
    ensures s[..len][start..end] == Trim(s[..len])
  {
    ghost var text := s[..len];
    start := 0;
    while start < len && IsSpace(s[start])
      invariant start <= len
      invariant forall i :: 0 <= i < start ==> IsSpace(text[i])
    {
      start := start + 1;
    }
    SkipSpacesExact(text, 0, start);
    end := len;
    while end > start && IsSpace(s[end - 1])
      invariant start <= end <= len
      invariant forall i :: end <= i < len ==> IsSpace(text[i])
    {
      end := end - 1;
    }
    TrailingCutExact(text, start, end);
  }

  /** `str_trim` on a NUL-terminated buffer: the trimmed text is moved to the front and re-terminated. */
  method StrTrim(s: array<char>)
    requires StrLen(s[..]) < s.Length
    modifies s
    ensures var t := Trim(Content(old(s[..])));
      |t| < s.Length && s[..|t|] == t && s[|t|] == '\0' && StrLen(s[..]) == |t|
  {
    var len := CStrLen(s);
    var start, end := TrimBounds(s, len);
    ghost var t := s[start..end];
    assert t == Trim(Content(s[..])) && '\0' !in t by {
      assert s[..len][start..end] == t;
    }
    KeepRange(s, start, end);
    Terminate(s, end - start, t);
  }

  /** `str_trim`'s `if (start > 0) memmove(...)`: the range [start, end) ends up at the front. */
  method KeepRange(s: array<char>, start: nat, end: nat)
    requires start <= end <= s.Length
    modifies s
    ensures s[..end - start] == old(s[start..end])
  {
    if start > 0 {
      MoveToFront(s, start, end);
    }
  }

  /** The NUL written after the text `t` at the front: `t` becomes the whole string. */
  method Terminate(s: array<char>, n: nat, ghost t: string)
    requires n == |t| < s.Length && s[..n] == t && '\0' !in t
    modifies s
    ensures s[..n] == t && s[n] == '\0' && StrLen(s[..]) == n
  {
    s[n] := '\0';
    assert s[..|t|] == t;
    assert forall i :: 0 <= i < |t| ==> s[i] == t[i];
    StrLenExact(s[..], |t|);
  }

  // ---------------------------------------------------------------------
  // str_tolower, str_ieq
  // ---------------------------------------------------------------------

  /** The text with every ASCII capital replaced by its small letter. */
  function Lower(s: string): (r: string)
    ensures |r| == |s|
    ensures forall i :: 0 <= i < |s| ==> r[i] == ToLowerChar(s[i])
  {
    seq(|s|, i requires 0 <= i < |s| => ToLowerChar(s[i]))
  }

  /** `str_tolower` on a NUL-terminated buffer: each character before the NUL is lowered in place. */
  method StrToLower(s: array<char>)
    requires StrLen(s[..]) < s.Length
    modifies s
    ensures StrLen(s[..]) == StrLen(old(s[..]))
    ensures s[..StrLen(s[..])] == Lower(Content(old(s[..])))
    ensures s[StrLen(s[..])..] == old(s[StrLen(s[..])..])
  {
    ghost var orig := s[..];
    ghost var n := StrLen(orig);
    var i := 0;
    while s[i] != '\0'
      invariant i <= n
      decreases s.Length - i
      invariant forall k :: 0 <= k < i ==> s[k] == ToLowerChar(orig[k])
      invariant forall k :: i <= k < s.Length ==> s[k] == orig[k]
    {
      s[i] := ToLowerChar(s[i]);
      i := i + 1;
    }
    StrLenExact(s[..], n);
    assert s[..n] == Lower(Content(orig));
  }

  /** Equality ignoring ASCII case. */
  predicate IEq(a: string, b: string) {
    |a| == |b| && forall i :: 0 <= i < |a| ==> ToLowerChar(a[i]) == ToLowerChar(b[i])
  }

  /** Case-insensitive equality is equality after lowering. */
  lemma IEqIffLowerEqual(a: string, b: string)
    ensures IEq(a, b) <==> Lower(a) == Lower(b)
  {
    if Lower(a) == Lower(b) {
      forall i | 0 <= i < |a| ensures ToLowerChar(a[i]) == ToLowerChar(b[i]) {
        assert Lower(a)[i] == Lower(b)[i];
      }
    }
  }

  /** Lowering a character a second time changes nothing. */
  lemma ToLowerCharIdempotent(c: char)
    ensures ToLowerChar(ToLowerChar(c)) == ToLowerChar(c)
  {
  }

  /** Lowering one side first does not change case-insensitive equality. */
  lemma IEqLower(a: string, b: string)
    ensures IEq(Lower(a), b) <==> IEq(a, b)
  {
    forall i | 0 <= i < |a| ensures ToLowerChar(Lower(a)[i]) == ToLowerChar(a[i]) {
      ToLowerCharIdempotent(a[i]);
    }
  }

  /** `str_ieq`: false when either pointer is NULL, else equality ignoring case. */
  method StrIeq(a: Option<string>, b: Option<string>) returns (r: bool)
    ensures r <==> a.Some? && b.Some? && IEq(a.value, b.value)
  {
    if a.None? || b.None? {
      return false;
    }
    var x, y := a.value, b.value;
    var i := 0;
    while i < |x| && i < |y|
      invariant 0 <= i <= |x| && i <= |y|
      invariant forall k :: 0 <= k < i ==> ToLowerChar(x[k]) == ToLowerChar(y[k])
    {
      if ToLowerChar(x[i]) != ToLowerChar(y[i]) {
        return false;
      }
      i := i + 1;
    }
    r := i == |x| && i == |y|;
  }

  // ---------------------------------------------------------------------
  // str_icase_find, str_icontains
  // ---------------------------------------------------------------------

  /** The needle occurs, ignoring case, at offset `i` of the haystack. */
  predicate IMatchAt(h: string, n: string, i: nat) {
    i + |n| <= |h| && IEq(h[i..i + |n|], n)
  }

  /** The needle occurs somewhere in the haystack, ignoring case. */
  predicate IContains(h: string, n: string) {
    exists i :: 0 <= i <= |h| && IMatchAt(h, n, i)
  }

  /**
   * `str_icase_find`: NULL for a NULL argument; offset 0 for an empty needle;
   * otherwise the first offset where the needle matches ignoring case, or NULL.
   */
  method StrIcaseFind(hay: Option<string>, needle: Option<string>) returns (r: Option<nat>)
    ensures hay.None? || needle.None? ==> r.None?
    ensures hay.Some? && needle == Some([]) ==> r == Some(0)
    ensures r.Some? ==> hay.Some? && needle.Some? && IMatchAt(hay.value, needle.value, r.value)
    ensures r.Some? ==> forall j :: 0 <= j < r.value ==> !IMatchAt(hay.value, needle.value, j)
    ensures r.None? && hay.Some? && needle.Some? ==> !IContains(hay.value, needle.value)
  {
    if hay.None? || needle.None? {
      return None;
    }
    var h, n := hay.value, needle.value;
    if n == [] {
      assert IMatchAt(h, n, 0);
      return Some(0);
    }
    var p := 0;
    while p < |h|
      invariant 0 <= p <= |h|
      invariant forall j :: 0 <= j < p ==> !IMatchAt(h, n, j)
    {
      var k := 0;
      while p + k < |h| && k < |n| && ToLowerChar(h[p + k]) == ToLowerChar(n[k])
        invariant 0 <= k <= |n| && p + k <= |h|
        invariant forall t :: 0 <= t < k ==> ToLowerChar(h[p + t]) == ToLowerChar(n[t])
      {
        k := k + 1;
      }
      if k == |n| {
        assert IEq(h[p..p + |n|], n) by {
          forall t | 0 <= t < |n| ensures ToLowerChar(h[p..p + |n|][t]) == ToLowerChar(n[t]) {
            assert h[p..p + |n|][t] == h[p + t];
          }
        }
        return Some(p);
      }
      if p + |n| <= |h| {
        assert h[p..p + |n|][k] == h[p + k];
      }
      p := p + 1;
    }
    r := None;
  }

  /** `str_icontains`: whether `str_icase_find` finds the needle. */
  method StrIcontains(hay: Option<string>, needle: Option<string>) returns (r: bool)
    ensures r <==> hay.Some? && needle.Some? && IContains(hay.value, needle.value)
  {
    var at := StrIcaseFind(hay, needle);
    r := at.Some?;
  }

  /** Lowering the haystack first does not change case-insensitive containment. */
  lemma IContainsLower(h: string, n: string)
    ensures IContains(Lower(h), n) <==> IContains(h, n)
  {
    forall i | 0 <= i <= |h| && i + |n| <= |h| ensures IMatchAt(Lower(h), n, i) <==> IMatchAt(h, n, i) {
      assert Lower(h)[i..i + |n|] == Lower(h[i..i + |n|]);
      IEqLower(h[i..i + |n|], n);
    }
    if IContains(Lower(h), n) {
      var i :| 0 <= i <= |h| && IMatchAt(Lower(h), n, i);
      assert IMatchAt(h, n, i);
    }
    if IContains(h, n) {
      var i :| 0 <= i <= |h| && IMatchAt(h, n, i);
      assert IMatchAt(Lower(h), n, i);
    }
  }

  // ---------------------------------------------------------------------
  // Decimal numbers: strtol and parse_int
  // ---------------------------------------------------------------------

  function DigitValue(c: char): nat
    requires IsDigit(c)
  {
    c as int - '0' as int
  }

  /** The value of a run of decimal digits. */
  function DigitsValue(d: string): nat
    requires AllDigits(d)
  {
    if d == [] then 0 else 10 * DigitsValue(d[..|d| - 1]) + DigitValue(d[|d| - 1])
  }

  function DigitChar(v: nat): (c: char)
    requires v < 10
    ensures IsDigit(c) && DigitValue(c) == v
  {
    ('0' as int + v) as char
  }

  /** The decimal spelling of a natural number, without leading zeros. */
  function DecimalText(n: nat): (d: string)
    ensures d != [] && AllDigits(d)
  {
    if n < 10 then [DigitChar(n)] else DecimalText(n / 10) + [DigitChar(n % 10)]
  }

  /** Reading back the decimal spelling gives the number. */
  lemma {:induction false} DecimalTextValue(n: nat)
    ensures DigitsValue(DecimalText(n)) == n
  {
    var d := DecimalText(n);
    if n >= 10 {
      DecimalTextValue(n / 10);
      assert d[..|d| - 1] == DecimalText(n / 10);
    } else {
      assert d[..0] == [];
    }
  }

  function Pow10(k: nat): (p: nat)
    ensures p >= 1
  {
    if k == 0 then 1 else 10 * Pow10(k - 1)
  }

  /** A number has more than k decimal digits (k >= 1) exactly when it is at least 10^k. */
  lemma {:induction false} DecimalTextLength(n: nat, k: nat)
    requires k >= 1
    ensures |DecimalText(n)| > k <==> n >= Pow10(k)
  {
    if n >= 10 {
      if k > 1 {
        DecimalTextLength(n / 10, k - 1);
      }
    } else {
      PowMonotone(k);
    }
  }

  lemma {:induction false} PowMonotone(k: nat)
    requires k >= 1
    ensures Pow10(k) >= 10
  {
    if k > 1 {
      PowMonotone(k - 1);
    }
  }

  /** A magnitude with a sign applied. */
  function Signed(neg: bool, n: nat): int {
    var m: int := n;
    if neg then -m else m
  }

  function Clamp(v: int, lo: int, hi: int): int
    requires lo <= hi
  {
    if v < lo then lo else if hi < v then hi else v
  }

  /** The outcome of `strtol`: the converted value and the offset where conversion stopped. */
  datatype Conversion = Conversion(value: int, end: nat)

  /**
   * `strtol(s, &end, 10)` on a 64-bit `long`: skips leading whitespace, reads an
   * optional sign and a run of digits, and saturates on overflow. The second
   * component is the end offset, 0 when no digits were converted.
   */
  function StrToL(s: string): (r: Conversion)
    ensures r.end <= |s|
    ensures LongMin <= r.value <= LongMax
    ensures r.end == 0 ==> r.value == 0
  {
    var i := SkipSpaces(s, 0);
    var signed := i < |s| && (s[i] == '+' || s[i] == '-');
    var j := if signed then i + 1 else i;
    var k := SkipDigits(s, j);
    if k == j then Conversion(0, 0)
    else
      var mag := DigitsValue(s[j..k]);
      Conversion(Clamp(Signed(signed && s[i] == '-', mag), LongMin, LongMax), k)
  }

  /** What `parse_int` computes, as written (src/util.c:78-94): the trailing whitespace is skipped before the "nothing parsed" test. */
  function ParsedInt(s: string): (r: Option<int>)
    ensures s == [] ==> r.None?
    ensures r.Some? ==> IntMin <= r.value <= IntMax
  {
    if s == [] then None
    else
      var conv := StrToL(s);
      var stop := SkipSpaces(s, conv.end);
      if stop == 0 || stop != |s| then None
      else if conv.value < IntMin || IntMax < conv.value then None
      else Some(conv.value)
  }

  /** What `parse_int` evidently means to compute: the "nothing parsed" test comes before the whitespace skip. */
  function ParsedIntStrict(s: string): (r: Option<int>)
    ensures s == [] ==> r.None?
    ensures r.Some? ==> IntMin <= r.value <= IntMax
    ensures r.Some? ==> exists k :: 0 <= k < |s| && IsDigit(s[k])
  {
    if s == [] then None
    else
      var conv := StrToL(s);
      if conv.end == 0 || SkipSpaces(s, conv.end) != |s| then None
      else if conv.value < IntMin || IntMax < conv.value then None
      else Some(conv.value)
  }

  /** `parse_int` as written. */
  method ParseInt(s: string) returns (r: Option<int>)
    ensures r == ParsedInt(s)
  {
    if s == [] {
      return None;
    }
    var conv := StrToL(s);
    var end := conv.end;
    while end < |s| && IsSpace(s[end])
      invariant conv.end <= end <= |s|
      invariant SkipSpaces(s, end) == SkipSpaces(s, conv.end)
    {
      end := end + 1;
    }
    if end == 0 || end != |s| {
      return None;
    }
    if conv.value < IntMin || conv.value > IntMax {
      return None;
    }
    r := Some(conv.value);
  }

  /** `parse_int` with the "nothing parsed" test placed before the whitespace skip. */
  method ParseIntStrict(s: string) returns (r: Option<int>)
    ensures r == ParsedIntStrict(s)
  {
    if s == [] {
      return None;
    }
    var conv := StrToL(s);
    if conv.end == 0 {
      return None;
    }
    var end := conv.end;
    while end < |s| && IsSpace(s[end])
      invariant conv.end <= end <= |s|
      invariant SkipSpaces(s, end) == SkipSpaces(s, conv.end)
    {
      end := end + 1;
    }
    if end != |s| {
      return None;
    }
    if conv.value < IntMin || conv.value > IntMax {
      return None;
    }
    r := Some(conv.value);
  }

  /** The decimal spelling of a signed number: an optional minus sign before the digits. */
  function IntText(neg: bool, n: nat): string {
    (if neg then "-" else "") + DecimalText(n)
  }

  /** strtol, unfolded at known scan positions. */
  lemma StrToLAt(s: string, neg: bool, j: nat, k: nat)
    requires var i := SkipSpaces(s, 0);
      i < |s| && ((s[i] == '+' || s[i] == '-') <==> neg) && (neg ==> s[i] == '-') &&
      j == i + (if neg then 1 else 0)
    requires j < k <= |s| && SkipDigits(s, j) == k
    ensures StrToL(s) == Conversion(Clamp(Signed(neg, DigitsValue(s[j..k])), LongMin, LongMax), k)
  {
  }

  /** strtol on whitespace, an optional minus sign, a decimal spelling and further text that starts with a non-digit. */
  lemma StrToLOfDecimal(w1: string, neg: bool, n: nat, rest: string)
    requires AllSpace(w1)
    requires rest != [] ==> !IsDigit(rest[0])
    ensures StrToL(w1 + IntText(neg, n) + rest) == Conversion(Clamp(Signed(neg, n), LongMin, LongMax), |w1| + |IntText(neg, n)|)
  {
    var s := w1 + IntText(neg, n) + rest;
    var d := DecimalText(n);
    var i := |w1|;
    var j := i + if neg then 1 else 0;
    var k := j + |d|;
    StrToLScan(s, w1, neg, d, rest);
    StrToLAt(s, neg, j, k);
    DecimalTextValue(n);
  }

  /** The scan positions strtol finds in such a text. */
  lemma StrToLScan(s: string, w1: string, neg: bool, d: string, rest: string)
    requires s == w1 + (if neg then "-" else "") + d + rest
    requires AllSpace(w1) && d != [] && AllDigits(d)
    requires rest != [] ==> !IsDigit(rest[0])
    ensures var i := |w1|; var j := i + if neg then 1 else 0;
      SkipSpaces(s, 0) == i && i < |s| &&
      ((s[i] == '+' || s[i] == '-') <==> neg) && (neg ==> s[i] == '-') &&
      j + |d| <= |s| && SkipDigits(s, j) == j + |d| && s[j..j + |d|] == d
  {
    var i := |w1|;
    var j := i + if neg then 1 else 0;
    var k := j + |d|;
    forall t | 0 <= t < i ensures IsSpace(s[t]) {
      assert s[t] == w1[t];
    }
    assert s[i] == if neg then '-' else d[0];
    SkipSpacesExact(s, 0, i);
    forall t | j <= t < k ensures IsDigit(s[t]) {
      assert s[t] == d[t - j];
    }
    assert k < |s| ==> s[k] == rest[0];
    SkipDigitsExact(s, j, k);
    assert s[j..k] == d;
  }

  /** A decimal integer in the range of `int`, with whitespace around it, is accepted with its value. */
  lemma ParseIntAcceptsDecimal(w1: string, neg: bool, n: nat, w2: string)
    requires AllSpace(w1) && AllSpace(w2)
    requires IntMin <= Signed(neg, n) <= IntMax
    ensures var s := w1 + IntText(neg, n) + w2;
      ParsedIntStrict(s) == Some(Signed(neg, n)) && ParsedInt(s) == Some(Signed(neg, n))
  {
    var s := w1 + IntText(neg, n) + w2;
    StrToLOfDecimal(w1, neg, n, w2);
    SkipSpacesExact(s, |s| - |w2|, |s|);
  }

  /** strtol reads a bare decimal spelling whole. */
  lemma StrToLOfDigitsOnly(n: nat)
    ensures StrToL(DecimalText(n)) == Conversion(Clamp(n, LongMin, LongMax), |DecimalText(n)|)
  {
    StrToLOfDecimal([], false, n, []);
    assert [] + IntText(false, n) + [] == DecimalText(n);
  }

  /** A decimal integer above INT_MAX is rejected. */
  lemma ParseIntRejectsOverflow(n: nat)
    requires n > IntMax
    ensures ParsedIntStrict(DecimalText(n)) == None && ParsedInt(DecimalText(n)) == None
  {
    StrToLOfDigitsOnly(n);
  }

  /** A negative decimal integer below INT_MIN is rejected. */
  lemma ParseIntRejectsUnderflow(n: nat)
    requires n > IntMax + 1
    ensures ParsedIntStrict("-" + DecimalText(n)) == None && ParsedInt("-" + DecimalText(n)) == None
  {
    StrToLOfDecimal([], true, n, []);
    assert [] + IntText(true, n) + [] == "-" + DecimalText(n);
  }

  /** Text that starts with neither whitespace, a sign nor a digit is rejected: strtol reads nothing. */
  lemma ParseIntRejectsNoNumber(s: string)
    requires s != [] && !IsSpace(s[0]) && !IsDigit(s[0]) && s[0] != '+' && s[0] != '-'
    ensures ParsedIntStrict(s) == None && ParsedInt(s) == None
  {
  }

  /** Text after the digits other than whitespace is rejected. */
  lemma ParseIntRejectsJunk(n: nat, junk: string)
    requires junk != [] && !IsDigit(junk[0]) && !IsSpace(junk[0])
    ensures ParsedIntStrict(DecimalText(n) + junk) == None && ParsedInt(DecimalText(n) + junk) == None
  {
    StrToLOfDecimal([], false, n, junk);
    assert [] + "" + DecimalText(n) + junk == DecimalText(n) + junk;
  }

  /** Finding: `parse_int` as written accepts a non-empty all-whitespace text as 0. */
  lemma ParseIntWhitespaceOnly(s: string)
    requires s != [] && AllSpace(s)
    ensures ParsedInt(s) == Some(0)
    ensures ParsedIntStrict(s) == None
  {
    SkipSpacesExact(s, 0, |s|);
  }

  /** Away from that case the two readings of `parse_int` agree. */
  lemma ParseIntReadingsAgree(s: string)
    requires s == [] || !AllSpace(s)
    ensures ParsedInt(s) == ParsedIntStrict(s)
  {
  }

  // ---------------------------------------------------------------------
  // Validators
  // ---------------------------------------------------------------------

  /** `valid_id`. */
  predicate ValidId(id: int) {
    100000 <= id <= 99999999
  }

  /** `valid_mark`, on the real numbers. */
  predicate ValidMark(m: real) {
    0.0 <= m <= 100.0
  }

  /** `valid_text`: a non-NULL string of 1 to 63 characters (it must fit a 64-byte field). */
  predicate ValidText(s: Option<string>) {
    s.Some? && 0 < |s.value| < 64
  }

  /** A valid id is a number of six to eight decimal digits (include/student.h:7). */
  lemma ValidIdIsSixToEightDigits(id: int)
    ensures ValidId(id) <==> id >= 0 && 6 <= |DecimalText(id)| <= 8
  {
    if id >= 0 {
      DecimalTextLength(id, 5);
      DecimalTextLength(id, 8);
    }
  }

  /** Text cut to 63 characters passes `valid_text` exactly when it is non-empty. */
  lemma PrefixValidText(s: string)
    ensures ValidText(Some(Prefix(s, 63))) <==> s != []
  {
  }

  // ---------------------------------------------------------------------
  // C int narrowing
  // ---------------------------------------------------------------------

  /** The conversion `(int)v` of a 64-bit value on a two's complement target: reduction modulo 2^32. */
  function ToInt32(v: int): (r: int)
    ensures IntMin <= r <= IntMax
    ensures IntMin <= v <= IntMax ==> r == v
    ensures (r - v) % 0x1_0000_0000 == 0
  {
    (v - IntMin) % 0x1_0000_0000 + IntMin
  }
}
