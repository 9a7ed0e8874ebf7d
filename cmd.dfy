/**
 * The command interpreter of src/cmd.c: one input line is split into a verb
 * and its arguments and dispatched to the record store. INSERT and UPDATE
 * read `key=value` pairs into a sentinel patch, DELETE and QUERY read a
 * single `ID=<value>`, FIND filters the records by a column, an operator and
 * a value, and SHOW either sorts and lists the records or summarises them.
 * Printed messages are replaced by result codes.
 */
module Commands {
  import opened Wrappers
  import opened Util
  import opened Students
  import opened RecordStore
  import opened Sorting
  import opened Statistics

  // ---------------------------------------------------------------------
  // Sentinel patch and argument checks
  // ---------------------------------------------------------------------

  /** `init_patch`: the patch in which every field says "no change". */
  function InitPatch(): Student {
    Student(-1, [], [], -1.0)
  }

  /** The sentinel patch leaves any record exactly as it was, and the update succeeds. */
  lemma InitPatchChangesNothing(recs: seq<Student>, cur: Student, id: int)
    ensures ApplyPatch(recs, cur, id, InitPatch()) == Patched(true, cur)
  {
  }

  /** `has_no_args`: there is no argument text, or it is only whitespace. */
  function HasNoArgs(args: Option<string>): (r: bool)
    ensures r <==> args.None? || AllSpace(args.value)
  {
    if args.None? then true
    else
      TrimEmptyIffAllSpace(args.value);
      Trim(args.value) == []
  }

  // ---------------------------------------------------------------------
  // ID=<value> arguments (DELETE, QUERY)
  // ---------------------------------------------------------------------

  /** The arguments start with `ID=`, in any case (`strncasecmp(args, "ID=", 3)`). */
  predicate IdPrefix(args: string) {
    |args| >= 3 && IEq(args[..3], "ID=")
  }

  /**
   * `parse_single_id_command` as written: the text after `ID=` is trimmed
   * and converted by strtol; no digits, or anything but whitespace after
   * them, is refused; the 64-bit value is narrowed to `int` and only then
   * checked by `valid_id`.
   */
  function SingleId(args: string): (r: Option<int>)
    ensures r.Some? ==> IdPrefix(args) && ValidId(r.value)
  {
    if !IdPrefix(args) then None
    else
      var v := Trim(args[3..]);
      var conv := StrToL(v);
      if conv.end == 0 || SkipSpaces(v, conv.end) != |v| then None
      else if !ValidId(ToInt32(conv.value)) then None
      else Some(ToInt32(conv.value))
  }

  /** `parse_single_id_command` with `valid_id` applied to the converted value itself, before any narrowing. */
  function SingleIdStrict(args: string): (r: Option<int>)
    ensures r.Some? ==> IdPrefix(args) && ValidId(r.value)
    ensures r.Some? ==> r.value == StrToL(Trim(args[3..])).value
  {
    if !IdPrefix(args) then None
    else
      var v := Trim(args[3..]);
      var conv := StrToL(v);
      if conv.end == 0 || SkipSpaces(v, conv.end) != |v| then None
      else if !ValidId(conv.value) then None
      else Some(conv.value)
  }

  /** The checks of `parse_single_id_command`, with its trailing-whitespace loop; narrowing as written. */
  method ParseSingleId(args: string) returns (r: Option<int>)
    ensures r == SingleId(args)
  {
    var v: string;
    var conv: Conversion;
    var ok := IdCheck(args);
    if !ok {
      return None;
    }
    v, conv := IdConversion(args);
    if conv.end == 0 {
      return None;
    }
    var end := SkipTrailing(v, conv.end);
    if end != |v| {
      return None;
    }
    var id := ToInt32(conv.value);
    if !ValidId(id) {
      return None;
    }
    r := Some(id);
  }

  /** The same checks with `valid_id` applied before narrowing. */
  method ParseSingleIdStrict(args: string) returns (r: Option<int>)
    ensures r == SingleIdStrict(args)
  {
    var v: string;
    var conv: Conversion;
    var ok := IdCheck(args);
    if !ok {
      return None;
    }
    v, conv := IdConversion(args);
    if conv.end == 0 {
      return None;
    }
    var end := SkipTrailing(v, conv.end);
    if end != |v| {
      return None;
    }
    if !ValidId(conv.value) {
      return None;
    }
    r := Some(conv.value);
  }

  /** `strncasecmp(args, "ID=", 3) == 0`, one character at a time. */
  method IdCheck(args: string) returns (ok: bool)
    ensures ok <==> IdPrefix(args)
  {
    if |args| < 3 {
      return false;
    }
    ok := ToLowerChar(args[0]) == 'i' && ToLowerChar(args[1]) == 'd' && args[2] == '=';
    assert ok <==> IEq(args[..3], "ID=");
  }

  /** The trimmed value text and its strtol conversion. */
  method IdConversion(args: string) returns (v: string, conv: Conversion)
    requires IdPrefix(args)
    ensures v == Trim(args[3..]) && conv == StrToL(v)
  {
    v := Trim(args[3..]);
    conv := StrToL(v);
  }

  /** The loop that moves `endptr` over whitespace. */
  method SkipTrailing(v: string, from: nat) returns (end: nat)
    requires from <= |v|
    ensures end == SkipSpaces(v, from)
  {
    end := from;
    while end < |v| && IsSpace(v[end])
      invariant from <= end <= |v|
      invariant forall k :: from <= k < end ==> IsSpace(v[k])
    {
      end := end + 1;
    }
    SkipSpacesExact(v, from, end);
  }

  /** A decimal id between optional whitespace after any spelling of `ID=` is read with its value, by both readings. */
  lemma SingleIdAcceptsDecimal(pre: string, w1: string, n: nat, w2: string)
    requires |pre| == 3 && IEq(pre, "ID=")
    requires AllSpace(w1) && AllSpace(w2) && ValidId(n)
    ensures SingleIdStrict(pre + w1 + DecimalText(n) + w2) == Some(n)
    ensures SingleId(pre + w1 + DecimalText(n) + w2) == Some(n)
  {
    var args := pre + w1 + DecimalText(n) + w2;
    var d := DecimalText(n);
    assert args[..3] == pre;
    assert args[3..] == w1 + d + w2;
    TrimPadded(w1, d, w2);
    SingleIdOfDigits(args, n);
  }

  /** Once the trimmed value is a valid id in decimal, both readings return it. */
  lemma SingleIdOfDigits(args: string, n: nat)
    requires IdPrefix(args) && Trim(args[3..]) == DecimalText(n) && ValidId(n)
    ensures SingleIdStrict(args) == Some(n) && SingleId(args) == Some(n)
  {
    StrToLOfDigits(n);
  }

  /** Text other than whitespace after the digits is refused by both readings. */
  lemma SingleIdRejectsJunk(n: nat, junk: string)
    requires junk != [] && !IsDigit(junk[0]) && !IsSpace(junk[0]) && !IsSpace(junk[|junk| - 1])
    ensures SingleIdStrict("ID=" + DecimalText(n) + junk) == None
    ensures SingleId("ID=" + DecimalText(n) + junk) == None
  {
    var d := DecimalText(n);
    var args := "ID=" + d + junk;
    assert args[..3] == "ID=";
    assert args[3..] == d + junk;
    TrimOfTrimmed(d + junk);
    StrToLOfDecimal([], false, n, junk);
    assert [] + IntText(false, n) + junk == d + junk;
    assert (d + junk)[|d|] == junk[0];
  }

  /** Within the range of `int`, narrowing changes nothing and the two readings agree. */
  lemma SingleIdReadingsAgree(args: string)
    requires IdPrefix(args)
    requires IntMin <= StrToL(Trim(args[3..])).value <= IntMax
    ensures SingleId(args) == SingleIdStrict(args)
  {
  }

  /** Finding: a valid id plus 2^32 is narrowed onto the valid id and accepted. */
  lemma SingleIdWraps(n: nat)
    requires ValidId(n)
    ensures SingleId("ID=" + DecimalText(n + 0x1_0000_0000)) == Some(n)
    ensures SingleIdStrict("ID=" + DecimalText(n + 0x1_0000_0000)) == None
  {
    var m := n + 0x1_0000_0000;
    var args := "ID=" + DecimalText(m);
    assert args[..3] == "ID=";
    assert args[3..] == DecimalText(m);
    StrToLOfDigits(m);
    ToInt32Wraps(n);
  }

  /** A bare run of digits is left alone by trimming and read whole by strtol. */
  lemma StrToLOfDigits(n: nat)
    ensures var d := DecimalText(n);
      Trim(d) == d && StrToL(d) == Conversion(Clamp(n, LongMin, LongMax), |d|) && SkipSpaces(d, |d|) == |d|
  {
    TrimOfTrimmed(DecimalText(n));
    StrToLOfDigitsOnly(n);
  }

  /** Narrowing to 32 bits maps an int plus 2^32 back onto it. */
  lemma ToInt32Wraps(n: int)
    requires IntMin <= n <= IntMax
    ensures ToInt32(n + 0x1_0000_0000) == n
  {
    assert (n + 0x1_0000_0000 - IntMin) % 0x1_0000_0000 == n - IntMin;
  }

  // ---------------------------------------------------------------------
  // The key=value scanner of INSERT and UPDATE
  // ---------------------------------------------------------------------

  /** The four keys the scanner knows. */
  datatype Key = Id | Name | Programme | Mark

  function KeyText(k: Key): (t: string)
    ensures |t| >= 2
  {
    match k
    case Id => "ID"
    case Name => "Name"
    case Programme => "Programme"
    case Mark => "Mark"
  }

  /** A key found by `find_next_key`: its offset in the text searched, and which key it is. */
  datatype KeyHit = KeyHit(pos: nat, key: Key)

  /** `find_next_key`, which is not part of this model, as a parameter. */
  type KeyFinder = string -> Option<KeyHit>

  /** `parse_float`, whose float conversion is not part of this model, as a parameter. */
  type FloatParser = string -> Option<real>

  /**
   * What the scanner relies on: a reported key lies inside the text searched,
   * so that the search for `=` starts within the text.
   */
  ghost predicate FinderSound(find: KeyFinder) {
    forall s :: find(s).Some? ==> find(s).value.pos + |KeyText(find(s).value.key)| <= |s|
  }

  /** The size of the value buffer, and of a record's text fields (include/student.h:8-9). */
  const ValueBuf: nat := 256
  const FieldSize: nat := 64

  /** One pair of surrounding double quotes taken off a text of at least `minLen` characters. */
  function Unquoted(v: string, minLen: nat): (r: string)
    requires minLen >= 2
    ensures |r| <= |v|
  {
    if |v| >= minLen && v[0] == '"' && v[|v| - 1] == '"' then v[1..|v| - 1] else v
  }

  /** A scanned value: cut to the buffer, trimmed, and unquoted when it is longer than two characters. */
  function CleanValue(raw: string): (v: string)
    ensures |v| < ValueBuf
  {
    Unquoted(Trim(Prefix(raw, ValueBuf - 1)), 3)
  }

  /** A quoted value surrounded by whitespace comes back as the text between the quotes. */
  lemma CleanValueQuoted(w1: string, x: string, w2: string)
    requires AllSpace(w1) && AllSpace(w2) && x != []
    requires |w1| + |x| + 2 + |w2| < ValueBuf
    ensures CleanValue(w1 + "\"" + x + "\"" + w2) == x
  {
    var q := "\"" + x + "\"";
    var raw := w1 + q + w2;
    assert w1 + "\"" + x + "\"" + w2 == raw;
    assert Prefix(raw, ValueBuf - 1) == raw;
    assert q[0] == '"' && q[|q| - 1] == '"' && !IsSpace('"');
    TrimPadded(w1, q, w2);
    assert q[1..|q| - 1] == x;
    assert Unquoted(q, 3) == x;
  }

  /** An unquoted value with no surrounding whitespace is kept as it is. */
  lemma CleanValuePlain(x: string)
    requires |x| < ValueBuf
    requires x != [] ==> x[0] != '"' && !IsSpace(x[0]) && !IsSpace(x[|x| - 1])
    ensures CleanValue(x) == x
  {
    TrimOfTrimmed(x);
  }

  /** Two quote characters alone are too short to be unquoted: they are kept. */
  lemma CleanValueKeepsEmptyQuotes()
    ensures CleanValue("\"\"") == "\"\""
  {
    TrimOfTrimmed("\"\"");
  }

  /** A key with its cleaned value. */
  datatype Token = Token(key: Key, value: string)

  /**
   * One round of the scan loop: no key left, a key without `=`, or a key
   * with the bounds of the raw text of its value and where the loop goes on
   * (None: the end).
   */
  datatype Lexed = NoKey | Malformed | Pair(key: Key, start: nat, end: nat, next: Option<nat>)

  /**
   * One round of the scan loop from offset `p`: the next key; the first
   * non-space character after it must be `=`; the value runs from the first
   * non-space character after `=` to the next key, or to the end of the text.
   */
  function NextPair(s: string, p: nat, find: KeyFinder): (r: Lexed)
    requires p <= |s| && FinderSound(find)
    ensures r.Pair? ==> r.start <= r.end <= |s|
    ensures r.Pair? && r.next.Some? ==> p < r.next.value <= |s|
  {
    if p == |s| then NoKey
    else
      match find(s[p..])
      case None => NoKey
      case Some(hit) =>
        var e := p + hit.pos + |KeyText(hit.key)|;
        var q := SkipSpaces(s, e);
        if q == |s| || s[q] != '=' then Malformed
        else ValueFrom(s, hit.key, q + 1, find)
  }

  /** The value of a key whose `=` ends before `from`: it runs from the first non-space character to the next key. */
  function ValueFrom(s: string, key: Key, from: nat, find: KeyFinder): (r: Lexed)
    requires from <= |s| && FinderSound(find)
    ensures r.Pair? && r.key == key && r.start <= r.end <= |s|
    ensures r.next.Some? ==> from <= r.next.value <= |s|
  {
    var vs := SkipSpaces(s, from);
    var next := find(s[vs..]);
    var ve := if next.None? then |s| else vs + next.value.pos;
    Pair(key, vs, ve, if next.None? then None else Some(ve))
  }

  /** The pairs the scan loop reads from offset `p` on, or None when a key is not followed by `=`. */
  function Tokens(s: string, p: nat, find: KeyFinder): (r: Option<seq<Token>>)
    requires p <= |s| && FinderSound(find)
    ensures r.Some? ==> forall i :: 0 <= i < |r.value| ==> |r.value[i].value| < ValueBuf
    decreases |s| - p
  {
    match NextPair(s, p, find)
    case NoKey => Some([])
    case Malformed => None
    case Pair(key, start, end, next) =>
      var t := Token(key, CleanValue(s[start..end]));
      if next.None? then Some([t])
      else
        match Tokens(s, next.value, find)
        case None => None
        case Some(rest) => Some([t] + rest)
  }

  /** A key whose next non-space character is not `=` aborts the scan. */
  lemma MissingEqualsAborts(s: string, p: nat, find: KeyFinder)
    requires p < |s| && FinderSound(find) && find(s[p..]).Some?
    requires var e := p + find(s[p..]).value.pos + |KeyText(find(s[p..]).value.key)|;
      (forall k :: e <= k < |s| ==> s[k] != '=') ||
      (exists j :: e <= j < |s| && !IsSpace(s[j]) && s[j] != '=' && forall k :: e <= k < j ==> s[k] != '=')
    ensures Tokens(s, p, find) == None
  {
    TokensAbortAt(s, p, find);
  }

  /** The scan stops with a failure at the first key whose next non-space character is not `=`. */
  lemma TokensAbortAt(s: string, p: nat, find: KeyFinder)
    requires p < |s| && FinderSound(find) && find(s[p..]).Some?
    requires var e := p + find(s[p..]).value.pos + |KeyText(find(s[p..]).value.key)|;
      SkipSpaces(s, e) == |s| || s[SkipSpaces(s, e)] != '='
    ensures Tokens(s, p, find) == None
  {
  }

  /** The field a token sets; an ID or Mark value that does not parse makes the command fail. */
  function ApplyToken(patch: Student, t: Token, pf: FloatParser): Option<Student> {
    match t.key
    case Id =>
      (match ParsedInt(t.value)
       case None => None
       case Some(v) => Some(patch.(id := v)))
    case Name => Some(patch.(name := Prefix(t.value, FieldSize - 1)))
    case Programme => Some(patch.(programme := Prefix(t.value, FieldSize - 1)))
    case Mark =>
      (match pf(t.value)
       case None => None
       case Some(m) => Some(patch.(mark := m)))
  }

  /** The token's value does not parse as its key requires. */
  predicate Rejected(t: Token, pf: FloatParser) {
    (t.key == Id && ParsedInt(t.value).None?) || (t.key == Mark && pf(t.value).None?)
  }

  /** The tokens applied in order. */
  function ApplyTokens(patch: Student, toks: seq<Token>, pf: FloatParser): Option<Student>
    decreases |toks|
  {
    if toks == [] then Some(patch)
    else
      match ApplyToken(patch, toks[0], pf)
      case None => None
      case Some(p) => ApplyTokens(p, toks[1..], pf)
  }

  /** The index of the last token for `key`, or -1. */
  function LastIndex(toks: seq<Token>, key: Key): (k: int)
    ensures -1 <= k < |toks|
    ensures k >= 0 ==> toks[k].key == key
    ensures forall j :: k < j < |toks| ==> toks[j].key != key
    decreases |toks|
  {
    if toks == [] then -1
    else
      var k := LastIndex(toks[1..], key);
      if k >= 0 then k + 1
      else if toks[0].key == key then 0
      else -1
  }

  /** Applying the tokens fails exactly when one of them does not parse. */
  lemma {:induction false} ApplyTokensFails(patch: Student, toks: seq<Token>, pf: FloatParser)
    ensures ApplyTokens(patch, toks, pf).None? <==> exists i :: 0 <= i < |toks| && Rejected(toks[i], pf)
    decreases |toks|
  {
    if toks != [] {
      var first := ApplyToken(patch, toks[0], pf);
      assert first.None? <==> Rejected(toks[0], pf);
      if first.Some? {
        ApplyTokensFails(first.value, toks[1..], pf);
        if exists i :: 0 <= i < |toks| && Rejected(toks[i], pf) {
          var i :| 0 <= i < |toks| && Rejected(toks[i], pf);
          assert i > 0;
          assert Rejected(toks[1..][i - 1], pf);
        }
        if exists i :: 0 <= i < |toks[1..]| && Rejected(toks[1..][i], pf) {
          var i :| 0 <= i < |toks[1..]| && Rejected(toks[1..][i], pf);
          assert Rejected(toks[i + 1], pf);
        }
      }
    }
  }

  /*
   * A repeated key overwrites the earlier value: each field of the result
   * comes from the last token for it, or from the starting patch when the
   * field's key does not occur. One lemma per field.
   */

  lemma {:induction false} LastIdWins(patch: Student, toks: seq<Token>, pf: FloatParser)
    requires ApplyTokens(patch, toks, pf).Some?
    ensures var r := ApplyTokens(patch, toks, pf).value;
      var i := LastIndex(toks, Id);
      if i < 0 then r.id == patch.id else ParsedInt(toks[i].value) == Some(r.id)
    decreases |toks|
  {
    if toks != [] {
      var p := ApplyToken(patch, toks[0], pf).value;
      LastIdWins(p, toks[1..], pf);
    }
  }

  lemma {:induction false} LastNameWins(patch: Student, toks: seq<Token>, pf: FloatParser)
    requires ApplyTokens(patch, toks, pf).Some?
    ensures var i := LastIndex(toks, Name);
      ApplyTokens(patch, toks, pf).value.name == if i < 0 then patch.name else Prefix(toks[i].value, FieldSize - 1)
    decreases |toks|
  {
    if toks != [] {
      var p := ApplyToken(patch, toks[0], pf).value;
      LastNameWins(p, toks[1..], pf);
    }
  }

  lemma {:induction false} LastProgrammeWins(patch: Student, toks: seq<Token>, pf: FloatParser)
    requires ApplyTokens(patch, toks, pf).Some?
    ensures var i := LastIndex(toks, Programme);
      ApplyTokens(patch, toks, pf).value.programme == if i < 0 then patch.programme else Prefix(toks[i].value, FieldSize - 1)
    decreases |toks|
  {
    if toks != [] {
      var p := ApplyToken(patch, toks[0], pf).value;
      LastProgrammeWins(p, toks[1..], pf);
    }
  }

  lemma {:induction false} LastMarkWins(patch: Student, toks: seq<Token>, pf: FloatParser)
    requires ApplyTokens(patch, toks, pf).Some?
    ensures var r := ApplyTokens(patch, toks, pf).value;
      var i := LastIndex(toks, Mark);
      if i < 0 then r.mark == patch.mark else pf(toks[i].value) == Some(r.mark)
    decreases |toks|
  {
    if toks != [] {
      var p := ApplyToken(patch, toks[0], pf).value;
      LastMarkWins(p, toks[1..], pf);
    }
  }

  /** The patch the scan loop builds from the sentinel patch, or None when the command fails. */
  function Scanned(s: string, find: KeyFinder, pf: FloatParser): Option<Student>
    requires FinderSound(find)
  {
    Resume(s, 0, InitPatch(), find, pf)
  }

  /** The rest of the scan from offset `p` with the patch built so far. */
  function Resume(s: string, p: nat, patch: Student, find: KeyFinder, pf: FloatParser): Option<Student>
    requires p <= |s| && FinderSound(find)
  {
    match Tokens(s, p, find)
    case None => None
    case Some(toks) => ApplyTokens(patch, toks, pf)
  }

  /** Name and programme of a scanned patch fit their 64-byte fields. */
  lemma ScannedTextFits(s: string, find: KeyFinder, pf: FloatParser)
    requires FinderSound(find) && Scanned(s, find, pf).Some?
    ensures |Scanned(s, find, pf).value.name| < FieldSize
    ensures |Scanned(s, find, pf).value.programme| < FieldSize
  {
    var toks := Tokens(s, 0, find).value;
    LastNameWins(InitPatch(), toks, pf);
    LastProgrammeWins(InitPatch(), toks, pf);
  }

  /** `strchr(s + from, c)`: the first offset at or after `from` holding `c`. */
  method FindChar(s: string, from: nat, c: char) returns (r: Option<nat>)
    requires from <= |s|
    ensures r.Some? ==> from <= r.value < |s| && s[r.value] == c
    ensures r.Some? ==> forall k :: from <= k < r.value ==> s[k] != c
    ensures r.None? ==> forall k :: from <= k < |s| ==> s[k] != c
  {
    var i := from;
    while i < |s|
      invariant from <= i <= |s|
      invariant forall k :: from <= k < i ==> s[k] != c
    {
      if s[i] == c {
        return Some(i);
      }
      i := i + 1;
    }
    r := None;
  }

  /**
   * The `=` test after a key: `strchr` for the first `=`, then the check that
   * only whitespace lies between the key and it. On success the offset of
   * the `=`, which is the first non-space character after the key.
   */
  method EqualsAfter(s: string, e: nat) returns (r: Option<nat>)
    requires e <= |s|
    ensures r.Some? ==> r.value == SkipSpaces(s, e) && r.value < |s| && s[r.value] == '='
    ensures r.None? ==> SkipSpaces(s, e) == |s| || s[SkipSpaces(s, e)] != '='
  {
    var eq := FindChar(s, e, '=');
    if eq.None? {
      return None;
    }
    var check := e;
    while check < eq.value && IsSpace(s[check])
      invariant e <= check <= eq.value
      invariant forall k :: e <= k < check ==> IsSpace(s[k])
    {
      check := check + 1;
    }
    SkipSpacesExact(s, e, check);
    if check != eq.value {
      return None;
    }
    r := eq;
  }

  /** The key search, the `=` test and the value bounds of one round of the scan loop. */
  method ReadPair(s: string, p: nat, find: KeyFinder) returns (r: Lexed)
    requires p < |s| && FinderSound(find)
    ensures r == NextPair(s, p, find)
  {
    var hit := find(s[p..]);
    if hit.None? {
      return NoKey;
    }
    r := ReadAfterKey(s, p, find, hit.value);
  }

  /** The `=` test and the value bounds once a key was found at `p + hit.pos`. */
  method ReadAfterKey(s: string, p: nat, find: KeyFinder, hit: KeyHit) returns (r: Lexed)
    requires p < |s| && FinderSound(find) && find(s[p..]) == Some(hit)
    ensures r == NextPair(s, p, find)
  {
    var e := p + hit.pos + |KeyText(hit.key)|;
    var eq := EqualsAfter(s, e);
    if eq.None? {
      NextPairMalformed(s, p, find, hit);
      return Malformed;
    }
    NextPairValue(s, p, find, hit, eq.value);
    r := ReadValue(s, hit.key, eq.value + 1, find);
  }

  /** A key followed by `=` at `q` makes a pair whose value starts after `q`. */
  lemma NextPairValue(s: string, p: nat, find: KeyFinder, hit: KeyHit, q: nat)
    requires p < |s| && FinderSound(find) && find(s[p..]) == Some(hit)
    requires q == SkipSpaces(s, p + hit.pos + |KeyText(hit.key)|) && q < |s| && s[q] == '='
    ensures NextPair(s, p, find) == ValueFrom(s, hit.key, q + 1, find)
  {
  }

  /** The value bounds of one round of the scan loop. */
  method ReadValue(s: string, key: Key, from: nat, find: KeyFinder) returns (r: Lexed)
    requires from <= |s| && FinderSound(find)
    ensures r == ValueFrom(s, key, from, find)
  {
    var vs := SkipTrailing(s, from);
    var next := find(s[vs..]);
    var ve: nat;
    if next.None? {
      ve := |s|;
    } else {
      ve := vs + next.value.pos;
    }
    r := Pair(key, vs, ve, if next.None? then None else Some(ve));
  }

  /** A key not followed by `=` makes the pair malformed. */
  lemma NextPairMalformed(s: string, p: nat, find: KeyFinder, hit: KeyHit)
    requires p < |s| && FinderSound(find) && find(s[p..]) == Some(hit)
    requires var q := SkipSpaces(s, p + hit.pos + |KeyText(hit.key)|); q == |s| || s[q] != '='
    ensures NextPair(s, p, find) == Malformed
  {
  }

  /** The field update inside the scan loop, dispatched on the key. */
  method SetField(patch: Student, t: Token, pf: FloatParser) returns (r: Option<Student>)
    ensures r == ApplyToken(patch, t, pf)
  {
    match t.key
    case Id =>
      var v := ParseInt(t.value);
      if v.None? {
        return None;
      }
      r := Some(patch.(id := v.value));
    case Name =>
      r := Some(patch.(name := Prefix(t.value, FieldSize - 1)));
    case Programme =>
      r := Some(patch.(programme := Prefix(t.value, FieldSize - 1)));
    case Mark =>
      var m := pf(t.value);
      if m.None? {
        return None;
      }
      r := Some(patch.(mark := m.value));
  }

  /** One round of the scan: the pair read at `p` is applied, and the scan goes on where the pair ends. */
  lemma ResumeStep(s: string, p: nat, patch: Student, find: KeyFinder, pf: FloatParser, key: Key, start: nat, end: nat, next: Option<nat>)
    requires p <= |s| && FinderSound(find) && NextPair(s, p, find) == Pair(key, start, end, next)
    ensures ApplyToken(patch, Token(key, CleanValue(s[start..end])), pf).None? ==> Resume(s, p, patch, find, pf) == None
    ensures ApplyToken(patch, Token(key, CleanValue(s[start..end])), pf).Some? && next.None? ==>
      Resume(s, p, patch, find, pf) == ApplyToken(patch, Token(key, CleanValue(s[start..end])), pf)
    ensures ApplyToken(patch, Token(key, CleanValue(s[start..end])), pf).Some? && next.Some? ==>
      Resume(s, p, patch, find, pf) == Resume(s, next.value, ApplyToken(patch, Token(key, CleanValue(s[start..end])), pf).value, find, pf)
  {
    var t := Token(key, CleanValue(s[start..end]));
    if next.None? {
      assert Tokens(s, p, find) == Some([t]) && [t] + [] == [t];
      ApplyTokensCons(patch, t, [], pf);
      var a := ApplyToken(patch, t, pf);
      if a.Some? {
        assert ApplyTokens(a.value, [], pf) == a;
      }
    } else {
      var rest := Tokens(s, next.value, find);
      if rest.None? {
        assert Tokens(s, p, find) == None;
      } else {
        assert Tokens(s, p, find) == Some([t] + rest.value);
        ApplyTokensCons(patch, t, rest.value, pf);
      }
    }
  }

  /** Applying a token list applies its head first. */
  lemma ApplyTokensCons(patch: Student, t: Token, rest: seq<Token>, pf: FloatParser)
    ensures ApplyTokens(patch, [t] + rest, pf) ==
      match ApplyToken(patch, t, pf)
      case None => None
      case Some(p2) => ApplyTokens(p2, rest, pf)
  {
    assert ([t] + rest)[0] == t && ([t] + rest)[1..] == rest;
  }

  /** The `while (p && *p)` loop of `handle_insert` and `handle_update`, filling a sentinel patch. */
  method ScanPatch(s: string, find: KeyFinder, pf: FloatParser) returns (r: Option<Student>)
    requires FinderSound(find)
    ensures r == Scanned(s, find, pf)
  {
    var patch := InitPatch();
    var p: nat := 0;
    var more := true;
    while more && p < |s|
      invariant p <= |s|
      invariant Scanned(s, find, pf) == if more then Resume(s, p, patch, find, pf) else Some(patch)
      decreases |s| - p + (if more then 1 else 0)
    {
      var step := ReadPair(s, p, find);
      if step.NoKey? {
        break;
      }
      if step.Malformed? {
        return None;
      }
      ghost var before := patch;
      var upd := SetField(patch, Token(step.key, CleanValue(s[step.start..step.end])), pf);
      if upd.None? {
        return None;
      }
      ResumeStep(s, p, before, find, pf, step.key, step.start, step.end, step.next);
      patch := upd.value;
      if step.next.None? {
        more := false;
      } else {
        p := step.next.value;
      }
    }
    r := Some(patch);
  }

  // ---------------------------------------------------------------------
  // INSERT and UPDATE
  // ---------------------------------------------------------------------

  /** The completeness test of `handle_insert`: every field differs from its sentinel. */
  predicate Complete(patch: Student) {
    patch.id >= 0 && patch.name != [] && patch.programme != [] && patch.mark >= 0.0
  }

  /**
   * What INSERT with argument text `text` does to the records `before`: the
   * scanned record is appended exactly when the scan succeeds and the record
   * is valid and its id new, and `ok` says whether it was; otherwise the
   * records stay as they were.
   */
  predicate Inserted(before: seq<Student>, after: seq<Student>, text: string, find: KeyFinder, pf: FloatParser, ok: bool)
    requires FinderSound(find)
  {
    var r := Scanned(text, find, pf);
    (ok <==> r.Some? && ValidStudent(r.value) && !HasId(before, r.value.id)) &&
    after == if ok then before + [r.value] else before
  }

  /**
   * `handle_insert`: the scanned patch is stored only if it is complete and
   * `store_insert` accepts it. A record `store_insert` accepts is always
   * complete, so the record is stored exactly when it is valid and new.
   */
  method HandleInsert(s: Store, args: string, find: KeyFinder, pf: FloatParser) returns (ok: bool)
    requires s.Valid() && FinderSound(find)
    modifies s, s.data
    ensures s.Valid()
    ensures Inserted(old(s.Records()), s.Records(), args, find, pf, ok)
    ensures WellFormed(old(s.Records())) ==> WellFormed(s.Records())
  {
    var r := ScanPatch(args, find, pf);
    if r.None? {
      return false;
    }
    var patch := r.value;
    if !Complete(patch) {
      return false;
    }
    ghost var recs := s.Records();
    ok := s.Insert(patch);
    if ok && WellFormed(recs) {
      AppendPreservesWellFormed(recs, patch);
    }
  }

  /**
   * What UPDATE with argument text `text` does to the records `before`:
   * nothing when the scan fails, yields no id, or the id is not stored;
   * otherwise the scanned patch is applied to the record with that id, and
   * `ok` is the patch's success.
   */
  predicate Updated(before: seq<Student>, after: seq<Student>, text: string, find: KeyFinder, pf: FloatParser, ok: bool)
    requires FinderSound(find)
  {
    var r := Scanned(text, find, pf);
    if r.None? || r.value.id < 0 then !ok && after == before
    else
      var k := IndexOf(before, r.value.id);
      if k == -1 then !ok && after == before
      else
        var u := ApplyPatch(before, before[k], r.value.id, r.value);
        ok == u.ok && after == before[k := u.rec]
  }

  /**
   * `handle_update`: without a scanned id nothing happens; otherwise the
   * scanned patch is applied to the record with that id. Target and patch
   * id are the same, so no record is ever re-keyed.
   */
  method HandleUpdate(s: Store, args: string, find: KeyFinder, pf: FloatParser) returns (ok: bool)
    requires s.Valid() && FinderSound(find)
    modifies s.data
    ensures s.Valid()
    ensures Updated(old(s.Records()), s.Records(), args, find, pf, ok)
    ensures |s.Records()| == |old(s.Records())|
    ensures forall i :: 0 <= i < |s.Records()| ==> s.Records()[i].id == old(s.Records())[i].id
    ensures WellFormed(old(s.Records())) ==> WellFormed(s.Records())
  {
    var r := ScanPatch(args, find, pf);
    if r.None? {
      return false;
    }
    var patch := r.value;
    if patch.id < 0 {
      return false;
    }
    ghost var recs := s.Records();
    ok := s.Update(patch.id, patch);
    ghost var k := IndexOf(recs, patch.id);
    if k != -1 {
      ApplyPatchSentinels(recs, recs[k], patch.id, patch);
    }
    UpdateKeepsWellFormed(recs, s.Records(), args, find, pf, ok);
  }

  /** An update whose patch carries its own target id leaves the record's id alone. */
  lemma UpdateNeverRekeys(recs: seq<Student>, cur: Student, patch: Student)
    ensures ApplyPatch(recs, cur, patch.id, patch).rec.id == cur.id
  {
    ApplyPatchSentinels(recs, cur, patch.id, patch);
  }

  // ---------------------------------------------------------------------
  // DELETE and QUERY
  // ---------------------------------------------------------------------

  /** The confirmation reply: a line was read and its first character is `Y` or `y`. */
  predicate Confirmed(reply: Option<string>) {
    reply.Some? && reply.value != [] && (reply.value[0] == 'Y' || reply.value[0] == 'y')
  }

  /**
   * What DELETE with argument text `args` does to the records `before`: the
   * record with the id `parse_single_id_command` reads is removed, swapping in
   * the last one, exactly when that id is stored and the confirmation says
   * yes; otherwise the records stay as they were.
   */
  predicate Deleted(before: seq<Student>, after: seq<Student>, args: string, reply: Option<string>, ok: bool) {
    match SingleId(args)
    case None => !ok && after == before
    case Some(id) =>
      IndexOfAbsent(before, id);
      (ok <==> HasId(before, id) && Confirmed(reply)) &&
      after == if ok then SwapRemove(before, IndexOf(before, id)) else before
  }

  /**
   * `handle_delete`, with the id read by `parse_single_id_command` as
   * written (`SingleId`): the record with that id is removed only when the
   * id is stored and the confirmation `reply` (None when no line could be
   * read) says yes; otherwise the store is unchanged.
   */
  method HandleDelete(s: Store, args: string, reply: Option<string>) returns (ok: bool)
    requires s.Valid()
    modifies s, s.data
    ensures s.Valid()
    ensures Deleted(old(s.Records()), s.Records(), args, reply, ok)
    ensures WellFormed(old(s.Records())) ==> WellFormed(s.Records())
  {
    var id := ParseSingleId(args);
    if id.None? {
      return false;
    }
    var idx := s.FindIndexById(id.value);
    IndexOfAbsent(s.Records(), id.value);
    if idx < 0 {
      return false;
    }
    if reply.None? {
      return false;
    }
    var line := reply.value;
    if line == [] || (line[0] != 'Y' && line[0] != 'y') {
      return false;
    }
    ghost var recs := s.Records();
    ok := s.Delete(id.value);
    if ok && WellFormed(recs) {
      SwapRemovePreservesWellFormed(recs, IndexOf(recs, id.value));
    }
  }

  /** What `handle_query` reports: the record with the id `SingleId` reads, or None. */
  function QueryResult(recs: seq<Student>, args: string): (r: Option<Student>)
    ensures r.Some? ==> r.value in recs && SingleId(args) == Some(r.value.id)
    ensures r.None? <==> SingleId(args).None? || !HasId(recs, SingleId(args).value)
  {
    match SingleId(args)
    case None => None
    case Some(id) =>
      IndexOfAbsent(recs, id);
      if id <= 0 then None
      else
        var k := IndexOf(recs, id);
        if k < 0 then None else Some(recs[k])
  }

  /** Finding at the handler: DELETE of a stored id plus 2^32, confirmed, removes the record with that id. */
  lemma DeleteWrapsOntoStoredId(before: seq<Student>, after: seq<Student>, n: nat, ok: bool)
    requires ValidId(n) && HasId(before, n)
    requires Deleted(before, after, "ID=" + DecimalText(n + 0x1_0000_0000), Some("Y"), ok)
    ensures ok && after == SwapRemove(before, IndexOf(before, n)) && |after| == |before| - 1
  {
    SingleIdWraps(n);
  }

  /** `handle_query`: reads the id and looks it up, changing nothing. */
  method HandleQuery(s: Store, args: string) returns (r: Option<Student>)
    requires s.Valid()
    ensures r == QueryResult(s.Records(), args)
  {
    var id := ParseSingleId(args);
    if id.None? {
      return None;
    }
    if id.value <= 0 {
      return None;
    }
    var idx := s.FindIndexById(id.value);
    if idx < 0 {
      return None;
    }
    r := Some(s.data[idx]);
  }

  // ---------------------------------------------------------------------
  // FIND
  // ---------------------------------------------------------------------

  /** The first offset at or after `i` that is not a blank. */
  function SkipBlanks(s: string, i: nat): (j: nat)
    requires i <= |s|
    ensures i <= j <= |s|
    ensures forall k :: i <= k < j ==> s[k] == ' '
    ensures j < |s| ==> s[j] != ' '
    decreases |s| - i
  {
    if i == |s| || s[i] != ' ' then i else SkipBlanks(s, i + 1)
  }

  /** The first offset at or after `i` that is a blank, or the end. */
  function NextBlank(s: string, i: nat): (j: nat)
    requires i <= |s|
    ensures i <= j <= |s|
    ensures forall k :: i <= k < j ==> s[k] != ' '
    ensures j < |s| ==> s[j] == ' '
    decreases |s| - i
  {
    if i == |s| || s[i] == ' ' then i else NextBlank(s, i + 1)
  }

  /** A token cut out by `strtok` and the offset from which the next call goes on. */
  datatype Piece = Piece(text: string, next: nat)

  /** `strtok` with the delimiter set " ", resumed at offset `i`. */
  function StrTok(s: string, i: nat): (r: Option<Piece>)
    requires i <= |s|
    ensures r.Some? ==> i < r.value.next <= |s| && r.value.text != []
    ensures r.Some? ==> forall k :: 0 <= k < |r.value.text| ==> r.value.text[k] != ' '
    ensures r.None? <==> forall k :: i <= k < |s| ==> s[k] == ' '
  {
    var a := SkipBlanks(s, i);
    if a == |s| then None
    else
      var b := NextBlank(s, a);
      Some(Piece(s[a..b], if b < |s| then b + 1 else b))
  }

  /** The column, operator and value of a FIND command, after trimming, lowering and unquoting. */
  datatype FindQuery = FindQuery(column: string, op: string, value: string)

  /** The three `strtok` calls of `handle_find`; the value is the rest of the line, and missing parts fail. */
  function FindArgs(args: string): Option<FindQuery> {
    match StrTok(args, 0)
    case None => None
    case Some(c) =>
      match StrTok(args, c.next)
      case None => None
      case Some(o) =>
        if o.next == |args| then None
        else Some(FindQuery(Lower(Trim(c.text)), Lower(Trim(o.text)), Unquoted(Trim(args[o.next..]), 2)))
  }

  /** The operator is not one the column supports; this makes FIND fail once a record is examined. */
  predicate Unsupported(q: FindQuery) {
    ((q.column == "name" || q.column == "programme") && q.op != "=" && q.op != "contains") ||
    (q.column == "mark" && q.op != "=" && q.op != ">" && q.op != "<" && q.op != ">=" && q.op != "<=")
  }

  /**
   * Whether a record satisfies the FIND condition, with `mv` the parsed
   * mark value; None for an unsupported operator. Programme `=` compares
   * the programme here; an unknown column matches nothing.
   */
  function Match(q: FindQuery, mv: real, st: Student): (r: Option<bool>)
    ensures r.None? <==> Unsupported(q)
    ensures q.column != "name" && q.column != "programme" && q.column != "mark" ==> r == Some(false)
  {
    if q.column == "name" then
      if q.op == "=" then Some(IEq(st.name, q.value))
      else if q.op == "contains" then Some(IContains(st.name, q.value))
      else None
    else if q.column == "programme" then
      if q.op == "=" then Some(IEq(st.programme, q.value))
      else if q.op == "contains" then Some(IContains(st.programme, q.value))
      else None
    else if q.column == "mark" then
      if q.op == "=" then Some(mv - 0.01 <= st.mark <= mv + 0.01)
      else if q.op == ">" then Some(st.mark > mv)
      else if q.op == "<" then Some(st.mark < mv)
      else if q.op == ">=" then Some(st.mark >= mv)
      else if q.op == "<=" then Some(st.mark <= mv)
      else None
    else Some(false)
  }

  /** The match predicate as written: Programme `=` compares the record's name. */
  function MatchAsWritten(q: FindQuery, mv: real, st: Student): (r: Option<bool>)
    ensures r.None? <==> Unsupported(q)
    ensures q.column == "programme" && q.op == "=" ==> r == Some(IEq(st.name, q.value))
    ensures !(q.column == "programme" && q.op == "=") ==> r == Match(q, mv, st)
  {
    if q.column == "programme" && q.op == "=" then Some(IEq(st.name, q.value)) else Match(q, mv, st)
  }

  /** Finding: `FIND Programme = CS` does not match a CS student whose name is not "CS". */
  lemma ProgrammeEqualsComparesName()
    ensures var st := Student(100001, "Ann", "CS", 70.0);
      var q := FindQuery("programme", "=", "cs");
      MatchAsWritten(q, 0.0, st) == Some(false) && Match(q, 0.0, st) == Some(true)
  {
    var st := Student(100001, "Ann", "CS", 70.0);
    assert !IEq(st.name, "cs") by {
      assert |st.name| != |"cs"|;
    }
  }

  /** Finding at the handler: `FIND Programme = cs` counts no record of a CS student whose name differs. */
  lemma FindProgrammeEqualsCountsNone()
    ensures var recs := [Student(100001, "Ann", "CS", 70.0)];
      CountMatches(recs, FindQuery("programme", "=", "cs"), 0.0) == 0 && IEq(recs[0].programme, "cs")
  {
    ProgrammeEqualsComparesName();
  }

  /** Mark `=` accepts exactly the marks within 0.01 of the value. */
  lemma MarkEqualsTolerance(value: string, mv: real, st: Student)
    ensures MatchAsWritten(FindQuery("mark", "=", value), mv, st) == Some(-0.01 <= st.mark - mv <= 0.01)
  {
  }

  /** The test "the condition matches the record", as `handle_find` makes it (`MatchAsWritten`). */
  function Matches(q: FindQuery, mv: real): Student -> bool {
    (st: Student) => MatchAsWritten(q, mv, st) == Some(true)
  }

  /** The number of records the condition matches. */
  function CountMatches(recs: seq<Student>, q: FindQuery, mv: real): (n: nat)
    ensures n <= |recs|
    ensures n == 0 <==> forall i :: 0 <= i < |recs| ==> MatchAsWritten(q, mv, recs[i]) != Some(true)
  {
    CountWhere(recs, Matches(q, mv))
  }

  /** The indices of the matching records. */
  function MatchingIndices(recs: seq<Student>, q: FindQuery, mv: real): set<nat> {
    set i: nat | i < |recs| && MatchAsWritten(q, mv, recs[i]) == Some(true)
  }

  /** The reported count is the number of matching records. */
  lemma CountMatchesIsCard(recs: seq<Student>, q: FindQuery, mv: real)
    ensures CountMatches(recs, q, mv) == |MatchingIndices(recs, q, mv)|
  {
    CountWhereIsCard(recs, Matches(q, mv));
    assert MatchingIndices(recs, q, mv) == Where(recs, Matches(q, mv));
  }

  /** Counting over two runs of records adds up. */
  lemma CountMatchesAppend(a: seq<Student>, b: seq<Student>, q: FindQuery, mv: real)
    ensures CountMatches(a + b, q, mv) == CountMatches(a, q, mv) + CountMatches(b, q, mv)
  {
    CountWhereAppend(a, b, Matches(q, mv));
  }

  /** The count depends only on which records are stored, not on their order: sorting does not change FIND. */
  lemma CountMatchesPermutation(a: seq<Student>, b: seq<Student>, q: FindQuery, mv: real)
    requires multiset(a) == multiset(b)
    ensures CountMatches(a, q, mv) == CountMatches(b, q, mv)
  {
    CountWhereMultiset(a, b, Matches(q, mv));
  }

  /**
   * What `handle_find` reports: None when it fails (missing arguments, a
   * mark value that does not parse, or an unsupported operator once there is
   * a record to examine), otherwise the number of records `MatchAsWritten`
   * accepts.
   */
  function FindOutcome(recs: seq<Student>, args: string, pf: FloatParser): (r: Option<nat>)
    ensures r.Some? ==> r.value <= |recs|
    ensures FindArgs(args).None? ==> r.None?
  {
    match FindPlan(args, pf)
    case None => None
    case Some(plan) =>
      if recs != [] && Unsupported(plan.query) then None
      else Some(CountMatches(recs, plan.query, plan.mv))
  }

  /** A FIND condition with its mark value parsed (0 when the column is not `mark`). */
  datatype FindCondition = FindCondition(query: FindQuery, mv: real)

  /** The argument checks of `handle_find` before the record loop: the three tokens, then the mark value when the column is `mark`. */
  function FindPlan(args: string, pf: FloatParser): (r: Option<FindCondition>)
    ensures r.Some? <==> FindArgs(args).Some? && (FindArgs(args).value.column == "mark" ==> pf(FindArgs(args).value.value).Some?)
    ensures r.Some? ==> r.value.query == FindArgs(args).value
  {
    match FindArgs(args)
    case None => None
    case Some(q) =>
      if q.column != "mark" then Some(FindCondition(q, 0.0))
      else
        match pf(q.value)
        case None => None
        case Some(mv) => Some(FindCondition(q, mv))
  }

  /** `handle_find`: the loop over the records counting matches; it changes nothing. */
  method HandleFind(s: Store, args: string, pf: FloatParser) returns (ok: bool, count: nat)
    requires s.Valid()
    ensures ok <==> FindOutcome(s.Records(), args, pf).Some?
    ensures ok ==> count == FindOutcome(s.Records(), args, pf).value
  {
    var plan := FindPlan(args, pf);
    if plan.None? {
      return false, 0;
    }
    ok, count := CountLoop(s, plan.value.query, plan.value.mv);
  }

  /** The record loop of `handle_find`: it stops with a failure at the first record an unsupported operator meets. */
  method CountLoop(s: Store, q: FindQuery, mv: real) returns (ok: bool, count: nat)
    requires s.Valid()
    ensures ok <==> s.Records() == [] || !Unsupported(q)
    ensures ok ==> count == CountMatches(s.Records(), q, mv)
  {
    count := 0;
    var i := 0;
    while i < s.size
      invariant i <= s.size
      invariant count == CountMatches(s.data[..i], q, mv)
      invariant i > 0 ==> !Unsupported(q)
    {
      var m := MatchAsWritten(q, mv, s.data[i]);
      if m.None? {
        return false, 0;
      }
      assert s.data[..i + 1][..i] == s.data[..i];
      assert CountMatches(s.data[..i + 1], q, mv) ==
        CountMatches(s.data[..i], q, mv) + (if Matches(q, mv)(s.data[i]) then 1 else 0);
      if m.value {
        count := count + 1;
      }
      i := i + 1;
    }
    assert s.data[..s.size] == s.Records();
    ok := true;
  }

  // ---------------------------------------------------------------------
  // SHOW
  // ---------------------------------------------------------------------

  /** What SHOW does: the statistics, or the listing after an optional sort. */
  datatype ShowPlan = Summary | Listing(sorted: bool, key: SortKey, asc: bool)

  /** The text starts with `summary`, in any case (`strncasecmp(args, "summary", 7)`). */
  predicate SummaryPrefix(a: string) {
    |a| >= 7 && IEq(a[..7], "summary")
  }

  /**
   * The SHOW clause: `summary` at the start selects the statistics;
   * otherwise the records are sorted only when `sort by` occurs, by mark
   * when `mark` occurs and descending when `desc` occurs, all ignoring case.
   */
  function PlanShow(args: Option<string>): (r: ShowPlan)
    ensures r.Summary? <==> args.Some? && SummaryPrefix(args.value)
    ensures r.Listing? ==> (r.sorted <==> args.Some? && IContains(args.value, "sort by"))
    ensures r.Listing? ==> (r.key == ByMark <==> r.sorted && IContains(args.value, "mark"))
    ensures r.Listing? ==> (!r.asc <==> r.sorted && IContains(args.value, "desc"))
  {
    if args.Some? && SummaryPrefix(args.value) then Summary
    else
      var sorted := args.Some? && IContains(args.value, "sort by");
      Listing(sorted,
              if sorted && IContains(args.value, "mark") then ByMark else ById,
              !(sorted && IContains(args.value, "desc")))
  }

  /** The clause is read the same whatever the case of its letters. */
  lemma PlanShowIgnoresCase(a: string)
    ensures PlanShow(Some(Lower(a))) == PlanShow(Some(a))
  {
    if |a| >= 7 {
      assert Lower(a)[..7] == Lower(a[..7]);
      IEqLower(a[..7], "summary");
    }
    IContainsLower(a, "sort by");
    IContainsLower(a, "mark");
    IContainsLower(a, "desc");
  }

  /** The SHOW clause detection with the `str_icontains` calls of `cmd_process_line`. */
  method ShowClause(args: Option<string>) returns (plan: ShowPlan)
    ensures plan == PlanShow(args)
  {
    if args.Some? && SummaryPrefix(args.value) {
      return Summary;
    }
    var sorted, asc, key := false, true, ById;
    if args.Some? {
      var hasSort := StrIcontains(args, Some("sort by"));
      if hasSort {
        sorted := true;
        var hasMark := StrIcontains(args, Some("mark"));
        if hasMark {
          key := ByMark;
        }
        var hasDesc := StrIcontains(args, Some("desc"));
        if hasDesc {
          asc := false;
        }
      }
    }
    plan := Listing(sorted, key, asc);
  }

  // ---------------------------------------------------------------------
  // OPEN
  // ---------------------------------------------------------------------

  /** `store_insert` on values: a valid record with a new id is appended, anything else is skipped. */
  function Admit(recs: seq<Student>, st: Student): (r: seq<Student>)
    ensures r == recs || r == recs + [st]
  {
    if ValidStudent(st) && !HasId(recs, st.id) then recs + [st] else recs
  }

  /** The records after inserting each candidate in turn. */
  function InsertAll(recs: seq<Student>, cands: seq<Student>): seq<Student>
    decreases |cands|
  {
    if cands == [] then recs else InsertAll(Admit(recs, cands[0]), cands[1..])
  }

  /** Loading keeps the store's invariant, and keeps every record it started from. */
  lemma {:induction false} InsertAllWellFormed(recs: seq<Student>, cands: seq<Student>)
    requires WellFormed(recs)
    ensures WellFormed(InsertAll(recs, cands))
    ensures |recs| <= |InsertAll(recs, cands)| && InsertAll(recs, cands)[..|recs|] == recs
    decreases |cands|
  {
    if cands != [] {
      var next := Admit(recs, cands[0]);
      if next != recs {
        AppendPreservesWellFormed(recs, cands[0]);
      }
      InsertAllWellFormed(next, cands[1..]);
      assert next[..|recs|] == recs;
      assert InsertAll(recs, cands)[..|next|][..|recs|] == InsertAll(recs, cands)[..|recs|];
    }
  }

  /** Every record loaded is one of the candidates. */
  lemma {:induction false} InsertAllFromCandidates(recs: seq<Student>, cands: seq<Student>)
    ensures forall st :: st in InsertAll(recs, cands) ==> st in recs || st in cands
    decreases |cands|
  {
    if cands != [] {
      var next := Admit(recs, cands[0]);
      InsertAllFromCandidates(next, cands[1..]);
      forall st | st in InsertAll(recs, cands) ensures st in recs || st in cands {
        if st in cands[1..] {
          assert st in cands;
        }
      }
    }
  }

  /**
   * OPEN: `store_free` and `store_init`, then `store_insert` of each record
   * `cms_load` reads from the database file; `cands` are those records, in
   * file order.
   */
  method Load(s: Store, cands: seq<Student>)
    requires s.Valid()
    modifies s
    ensures s.Valid()
    ensures s.Records() == InsertAll([], cands)
  {
    s.Reset();
    var i := 0;
    while i < |cands|
      invariant i <= |cands|
      invariant s.Valid()
      invariant InsertAll(s.Records(), cands[i..]) == InsertAll([], cands)
      invariant fresh(s.data)
    {
      ghost var before := s.Records();
      var ok := s.Insert(cands[i]);
      assert s.Records() == Admit(before, cands[i]);
      assert cands[i..][1..] == cands[i + 1..];
      i := i + 1;
    }
    assert cands[i..] == [];
  }

  // ---------------------------------------------------------------------
  // cmd_process_line
  // ---------------------------------------------------------------------

  /** The size of the line buffer `cmd_process_line` copies its input into. */
  const LineBuf: nat := 512

  /** The first whitespace offset of the line, or its end. */
  function VerbEnd(l: string): (j: nat)
    ensures j <= |l|
    ensures forall k :: 0 <= k < j ==> !IsSpace(l[k])
    ensures j < |l| ==> IsSpace(l[j])
    decreases |l|
  {
    if l == [] || IsSpace(l[0]) then 0 else 1 + VerbEnd(l[1..])
  }

  /** The verb: the copied line up to its first whitespace, lowered. */
  function Verb(line: string): (v: string)
    ensures |v| <= |line|
    ensures forall k :: 0 <= k < |v| ==> !IsSpace(v[k])
  {
    var l := Prefix(line, LineBuf - 1);
    Lower(l[..VerbEnd(l)])
  }

  /** The arguments: what follows the first whitespace character, or None (NULL) when there is none. */
  function Args(line: string): (a: Option<string>)
    ensures a.Some? ==> |a.value| < LineBuf - 1
  {
    var l := Prefix(line, LineBuf - 1);
    var j := VerbEnd(l);
    if j < |l| then Some(l[j + 1..]) else None
  }

  /** The split does not depend on the case of the verb's letters. */
  lemma VerbIgnoresCase(line: string)
    ensures Verb(Lower(line)) == Verb(line)
  {
    var l := Prefix(line, LineBuf - 1);
    assert Prefix(Lower(line), LineBuf - 1) == Lower(l);
    VerbEndLower(l);
    var j := VerbEnd(l);
    assert Lower(l)[..j] == Lower(l[..j]);
    forall k | 0 <= k < j ensures ToLowerChar(ToLowerChar(l[k])) == ToLowerChar(l[k]) {
      ToLowerCharIdempotent(l[k]);
    }
  }

  lemma {:induction false} VerbEndLower(l: string)
    ensures VerbEnd(Lower(l)) == VerbEnd(l)
    decreases |l|
  {
    if l != [] {
      assert Lower(l)[0] == ToLowerChar(l[0]);
      assert IsSpace(ToLowerChar(l[0])) <==> IsSpace(l[0]);
      if !IsSpace(l[0]) {
        assert Lower(l)[1..] == Lower(l[1..]);
        VerbEndLower(l[1..]);
      }
    }
  }

  /** Whether the interpreter goes on after the line: every verb but `exit` and `quit`. */
  predicate Continues(line: string) {
    Verb(line) != "exit" && Verb(line) != "quit"
  }

  /** The verbs whose handling may change the stored records. */
  predicate Mutating(verb: string) {
    verb == "open" || verb == "show" || verb == "insert" || verb == "update" || verb == "delete"
  }

  /** What a line reports in place of the messages it prints. */
  datatype Reply =
    | Quiet
    | Status(ok: bool)
    | Found(outcome: Option<nat>)
    | Queried(rec: Option<Student>)
    | Summarised(stats: Stats)

  /** What the interpreter is given from outside: `find_next_key`, `parse_float`, the DELETE reply, and the database contents. */
  datatype Env = Env(find: KeyFinder, pf: FloatParser, reply: Option<string>, loaded: seq<Student>)

  /** The argument text handlers receive: `args ? args : ""`. */
  function ArgText(line: string): string {
    OrEmpty(Args(line))
  }

  function OrEmpty(args: Option<string>): string {
    match args
    case None => ""
    case Some(a) => a
  }

  /**
   * `cmd_process_line`: one line of input is interpreted against the store.
   * The result is false exactly for `exit` and `quit`; the store's
   * invariant is kept; verbs that only read leave the records alone.
   */
  method ProcessLine(line: string, s: Store, env: Env) returns (cont: bool, reply: Reply)
    requires s.Valid() && FinderSound(env.find)
    modifies s, s.data
    ensures s.Valid()
    ensures cont <==> Continues(line)
    ensures WellFormed(old(s.Records())) ==> WellFormed(s.Records())
    ensures !Mutating(Verb(line)) ==> s.Records() == old(s.Records())
    ensures Verb(line) == "open" ==>
      s.Records() == if HasNoArgs(Args(line)) then InsertAll([], env.loaded) else old(s.Records())
    ensures Verb(line) == "insert" ==> reply.Status? && Inserted(old(s.Records()), s.Records(), ArgText(line), env.find, env.pf, reply.ok)
    ensures Verb(line) == "update" ==> reply.Status? && Updated(old(s.Records()), s.Records(), ArgText(line), env.find, env.pf, reply.ok)
    ensures Verb(line) == "delete" ==> reply.Status? && Deleted(old(s.Records()), s.Records(), ArgText(line), env.reply, reply.ok)
    ensures Verb(line) == "find" ==> reply == Found(FindOutcome(old(s.Records()), ArgText(line), env.pf))
    ensures Verb(line) == "query" ==> reply == Queried(QueryResult(old(s.Records()), ArgText(line)))
    ensures Verb(line) == "show" ==> multiset(s.Records()) == multiset(old(s.Records()))
    ensures Verb(line) == "show" && !(PlanShow(Args(line)).Listing? && PlanShow(Args(line)).sorted) ==>
      s.Records() == old(s.Records())
    ensures Verb(line) == "show" && PlanShow(Args(line)).Summary? ==>
      s.Records() == old(s.Records()) && reply.Summarised? && DescribesAsWritten(reply.stats, old(s.Records()))
    ensures Verb(line) == "show" && PlanShow(Args(line)).Listing? && PlanShow(Args(line)).sorted ==>
      if PlanShow(Args(line)).asc then Ascending(s.Records(), PlanShow(Args(line)).key)
      else Descending(s.Records(), PlanShow(Args(line)).key)
  {
    var verb := Verb(line);
    reply := Dispatch(verb, Args(line), s, env);
    cont := verb != "exit" && verb != "quit";
  }

  /** The verb-by-verb branches of `cmd_process_line`, after the line is split. */
  method Dispatch(verb: string, args: Option<string>, s: Store, env: Env) returns (reply: Reply)
    requires s.Valid() && FinderSound(env.find)
    modifies s, s.data
    ensures s.Valid()
    ensures WellFormed(old(s.Records())) ==> WellFormed(s.Records())
    ensures !Mutating(verb) ==> s.Records() == old(s.Records())
    ensures verb == "open" ==>
      s.Records() == if HasNoArgs(args) then InsertAll([], env.loaded) else old(s.Records())
    ensures verb == "insert" ==> reply.Status? && Inserted(old(s.Records()), s.Records(), OrEmpty(args), env.find, env.pf, reply.ok)
    ensures verb == "update" ==> reply.Status? && Updated(old(s.Records()), s.Records(), OrEmpty(args), env.find, env.pf, reply.ok)
    ensures verb == "delete" ==> reply.Status? && Deleted(old(s.Records()), s.Records(), OrEmpty(args), env.reply, reply.ok)
    ensures verb == "find" ==> reply == Found(FindOutcome(old(s.Records()), OrEmpty(args), env.pf))
    ensures verb == "query" ==> reply == Queried(QueryResult(old(s.Records()), OrEmpty(args)))
    ensures verb == "show" ==> multiset(s.Records()) == multiset(old(s.Records()))
    ensures verb == "show" && !(PlanShow(args).Listing? && PlanShow(args).sorted) ==>
      s.Records() == old(s.Records())
    ensures verb == "show" && PlanShow(args).Summary? ==>
      s.Records() == old(s.Records()) && reply.Summarised? && DescribesAsWritten(reply.stats, old(s.Records()))
    ensures verb == "show" && PlanShow(args).Listing? && PlanShow(args).sorted ==>
      if PlanShow(args).asc then Ascending(s.Records(), PlanShow(args).key)
      else Descending(s.Records(), PlanShow(args).key)
  {
    var text := OrEmpty(args);
    reply := Quiet;
    if verb == "open" {
      if HasNoArgs(args) {
        Load(s, env.loaded);
        InsertAllWellFormed([], env.loaded);
      }
    } else if verb == "save" || verb == "help" {
      // cms_save and the help text only write output.
    } else if verb == "show" {
      reply := HandleShow(s, args);
    } else if verb == "insert" {
      var ok := HandleInsert(s, text, env.find, env.pf);
      reply := Status(ok);
    } else if verb == "update" {
      var ok := HandleUpdate(s, text, env.find, env.pf);
      reply := Status(ok);
    } else if verb == "delete" {
      var ok := HandleDelete(s, text, env.reply);
      reply := Status(ok);
    } else if verb == "query" {
      var r := HandleQuery(s, text);
      reply := Queried(r);
    } else if verb == "find" {
      var ok, count := HandleFind(s, text, env.pf);
      reply := Found(if ok then Some(count) else None);
    }
  }

  /**
   * The SHOW branch of `cmd_process_line`: the statistics of the records,
   * or a listing, sorted first when an order was asked for. The records are
   * only ever rearranged.
   */
  method HandleShow(s: Store, args: Option<string>) returns (reply: Reply)
    requires s.Valid()
    modifies s.data
    ensures s.Valid()
    ensures multiset(s.Records()) == multiset(old(s.Records()))
    ensures WellFormed(old(s.Records())) ==> WellFormed(s.Records())
    ensures PlanShow(args).Summary? ==> reply.Summarised? && DescribesAsWritten(reply.stats, old(s.Records()))
    ensures PlanShow(args).Listing? ==> reply == Quiet
    ensures !(PlanShow(args).Listing? && PlanShow(args).sorted) ==> s.Records() == old(s.Records())
    ensures PlanShow(args).Listing? && PlanShow(args).sorted ==>
      if PlanShow(args).asc then Ascending(s.Records(), PlanShow(args).key)
      else Descending(s.Records(), PlanShow(args).key)
  {
    reply := Quiet;
    ghost var recs := s.Records();
    var plan := ShowClause(args);
    if plan.Summary? {
      var st := ComputeStats(s.data[..s.size]);
      reply := Summarised(st);
    } else if plan.sorted {
      StoreSort(s, plan.key, plan.asc);
      PermutationPreservesWellFormedIf(recs, s.Records());
    }
  }

  /** A rearrangement of a well-formed store is well formed. */
  lemma PermutationPreservesWellFormedIf(a: seq<Student>, b: seq<Student>)
    requires multiset(a) == multiset(b)
    ensures WellFormed(a) ==> WellFormed(b)
  {
    if WellFormed(a) {
      PermutationPreservesWellFormed(a, b);
    }
  }

  /** UPDATE, whatever it does, keeps a well-formed store well formed. */
  lemma UpdateKeepsWellFormed(before: seq<Student>, after: seq<Student>, text: string, find: KeyFinder, pf: FloatParser, ok: bool)
    requires FinderSound(find) && Updated(before, after, text, find, pf, ok)
    ensures WellFormed(before) ==> WellFormed(after)
  {
    var r := Scanned(text, find, pf);
    if WellFormed(before) && r.Some? && r.value.id >= 0 && IndexOf(before, r.value.id) != -1 {
      ApplyPatchPreservesWellFormed(before, r.value.id, r.value);
    }
  }
}
