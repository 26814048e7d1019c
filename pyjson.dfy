/** JSON values as Python's `json` module hands them to the scripts, and the
    Python built-ins the scripts apply to them: `dict.get`, truth testing,
    hashing, iteration, `len`, `int`, `str.strip`, `in` and `split` on strings,
    and `str` of a decoded value. */
module PyJson {

  datatype Option<+T> = None | Some(value: T)

  /** A decoded JSON value. A dict keeps its keys in insertion order, as Python's do. */
  datatype Json =
    | JNull
    | JBool(b: bool)
    | JInt(i: int)
    | JStr(s: string)
    | JArr(elems: seq<Json>)
    | JObj(fields: seq<(string, Json)>)

  type Fields = seq<(string, Json)>

  // ---------------------------------------------------------------------------
  // dict.get

  /** Index of the first binding of `key`, or |fields| when there is none. */
  function FirstKey(fields: Fields, key: string): (k: nat)
    ensures k <= |fields|
  {
    if fields == [] || fields[0].0 == key then 0 else 1 + FirstKey(fields[1..], key)
  }

  /** `FirstKey` finds the first binding of the key, and only a binding of the key. */
  lemma {:induction false} FirstKeyMeaning(fields: Fields, key: string)
    ensures forall j :: 0 <= j < FirstKey(fields, key) ==> fields[j].0 != key
    ensures FirstKey(fields, key) < |fields| ==> fields[FirstKey(fields, key)].0 == key
  {
    if fields != [] && fields[0].0 != key {
      FirstKeyMeaning(fields[1..], key);
      forall j | 0 <= j < FirstKey(fields, key) ensures fields[j].0 != key {
        if j > 0 { assert fields[j] == fields[1..][j - 1]; }
      }
    }
  }

  /** A key bound at `i` and nowhere before is found at `i`. */
  lemma {:induction false} FirstKeyAt(fields: Fields, key: string, i: nat)
    requires i < |fields| && fields[i].0 == key
    requires forall j :: 0 <= j < i ==> fields[j].0 != key
    ensures FirstKey(fields, key) == i
  {
    if i > 0 {
      assert fields[0].0 != key;
      forall j | 0 <= j < i - 1 ensures fields[1..][j].0 != key {
        assert fields[1..][j] == fields[j + 1];
      }
      FirstKeyAt(fields[1..], key, i - 1);
    }
  }

  predicate HasKey(fields: Fields, key: string) {
    FirstKey(fields, key) < |fields|
  }

  /** Python's `d.get(key, default)` on a dict with these fields. */
  function Get(fields: Fields, key: string, default: Json): Json {
    var k := FirstKey(fields, key);
    if k < |fields| then fields[k].1 else default
  }

  // ---------------------------------------------------------------------------
  // Truth testing, hashing, iteration, len

  /** Looking up a dict literal: its first binding answers for its own key and passes
      every other key on to the rest. */
  lemma GetHead(k: string, v: Json, rest: Fields, key: string, default: Json)
    ensures Get([(k, v)] + rest, key, default) == if k == key then v else Get(rest, key, default)
  {
    assert ([(k, v)] + rest)[1..] == rest;
  }

  /** Python's `bool(v)`: None, False, 0 and empty containers are false. */
  predicate Truthy(v: Json) {
    match v
    case JNull => false
    case JBool(b) => b
    case JInt(i) => i != 0
    case JStr(s) => s != []
    case JArr(es) => es != []
    case JObj(f) => f != []
  }

  /** Whether `v` may sit in a set or a set key: lists and dicts may not (TypeError). */
  predicate Hashable(v: Json) {
    !v.JArr? && !v.JObj?
  }

  /** What a set compares a hashable value by. Python's `True == 1` and `False == 0`
      hold and the pairs hash alike, so a boolean and the matching integer are one
      member, alone or inside a tuple. */
  function HashKey(v: Json): Json {
    if v.JBool? then JInt(if v.b then 1 else 0) else v
  }

  /** Two hashable values are one set member exactly when Python's `==` holds between
      them: equal values, or a boolean and the integer it equals. */
  lemma HashKeyMeaning(u: Json, v: Json)
    requires Hashable(u) && Hashable(v)
    ensures HashKey(u) == HashKey(v) <==>
      u == v || (u.JBool? && v == JInt(if u.b then 1 else 0)) || (v.JBool? && u == JInt(if v.b then 1 else 0))
  {
  }

  /** The dicts that `for x in v: x.get(...)` visits, or None when that loop raises:
      `v` is not iterable, or it yields something that is not a dict (the keys of a
      non-empty dict, the characters of a non-empty string, a list element). */
  function DictsOf(v: Json): Option<seq<Fields>> {
    match v
    case JArr(es) =>
      if forall i :: 0 <= i < |es| ==> es[i].JObj? then
        Some(seq(|es|, i requires 0 <= i < |es| => es[i].fields))
      else None
    case JObj(f) => if f == [] then Some([]) else None
    case JStr(s) => if s == [] then Some([]) else None
    case _ => None
  }

  /** A list of dicts yields its dicts in order; a list with anything else raises; an
      empty dict or string yields nothing; every other value raises. */
  lemma DictsOfMeaning(v: Json)
    ensures DictsOf(v).Some? && v.JArr? ==>
      |DictsOf(v).value| == |v.elems| && forall i :: 0 <= i < |v.elems| ==> v.elems[i] == JObj(DictsOf(v).value[i])
    ensures DictsOf(v).Some? && !v.JArr? ==> DictsOf(v).value == []
    ensures v.JArr? ==> (DictsOf(v).Some? <==> forall i :: 0 <= i < |v.elems| ==> v.elems[i].JObj?)
    ensures !v.JArr? ==> (DictsOf(v).Some? <==> v == JObj([]) || v == JStr(""))
  {
  }

  /** What `for x in v` visits, or None when `v` is not iterable (TypeError): a list's
      elements, a dict's keys, a string's characters. */
  function Iter(v: Json): (r: Option<seq<Json>>)
    ensures r.Some? <==> Len(v).Some?
    ensures r.Some? ==> Len(v) == Some(|r.value|)
  {
    match v
    case JArr(es) => Some(es)
    case JObj(f) => Some(seq(|f|, i requires 0 <= i < |f| => JStr(f[i].0)))
    case JStr(s) => Some(seq(|s|, i requires 0 <= i < |s| => JStr([s[i]])))
    case _ => None
  }

  /** Python's `len(v)`, or None for the values `len` rejects (TypeError). */
  function Len(v: Json): (r: Option<nat>)
    ensures r.Some? <==> v.JStr? || v.JArr? || v.JObj?
  {
    match v
    case JStr(s) => Some(|s|)
    case JArr(es) => Some(|es|)
    case JObj(f) => Some(|f|)
    case _ => None
  }

  /** A loop that builds one value per element, in order, and raises at the first
      element it cannot handle: None when it raises. */
  function TryMap<A, B>(xs: seq<A>, f: A -> Option<B>): Option<seq<B>>
    decreases |xs|
  {
    if xs == [] then Some([])
    else match (TryMap(xs[..|xs| - 1], f), f(xs[|xs| - 1]))
      case (Some(init), Some(last)) => Some(init + [last])
      case _ => None
  }

  /** The loop succeeds exactly when every element can be handled, and then yields
      the value of every element at its position. */
  lemma {:induction false} TryMapAll<A, B>(xs: seq<A>, f: A -> Option<B>)
    ensures TryMap(xs, f).Some? <==> forall i :: 0 <= i < |xs| ==> f(xs[i]).Some?
    ensures TryMap(xs, f).Some? ==>
      |TryMap(xs, f).value| == |xs| && forall i :: 0 <= i < |xs| ==> f(xs[i]) == Some(TryMap(xs, f).value[i])
    decreases |xs|
  {
    if xs != [] {
      var n := |xs|;
      var init := xs[..n - 1];
      TryMapAll(init, f);
      var e := f(xs[n - 1]);
      if TryMap(init, f).Some? && e.Some? {
        var r := TryMap(init, f).value + [e.value];
        assert TryMap(xs, f) == Some(r);
        forall i | 0 <= i < n ensures f(xs[i]) == Some(r[i]) {
          if i < n - 1 {
            assert xs[i] == init[i];
          }
        }
      } else if TryMap(init, f).None? {
        var i :| 0 <= i < |init| && f(init[i]).None?;
        assert xs[i] == init[i];
      }
    }
  }

  /** What such a loop leaves when its output is kept as it goes: the values built
      before it stopped, and whether it raised. */
  datatype Partial<B> = Partial(done: seq<B>, raised: bool)

  /** The loop of `TryMap`, keeping the values built before the first element it
      cannot handle. */
  function TryEach<A, B>(xs: seq<A>, f: A -> Option<B>): Partial<B>
    decreases |xs|
  {
    if xs == [] then Partial([], false)
    else
      var before := TryEach(xs[..|xs| - 1], f);
      if before.raised then before
      else match f(xs[|xs| - 1])
        case Some(y) => Partial(before.done + [y], false)
        case None => Partial(before.done, true)
  }

  /** The loop keeps the values of the longest prefix it can handle entirely, and
      raises exactly when that prefix is not everything, at the first element it
      cannot handle. */
  lemma {:induction false} TryEachPrefix<A, B>(xs: seq<A>, f: A -> Option<B>)
    ensures |TryEach(xs, f).done| <= |xs|
    ensures TryMap(xs[..|TryEach(xs, f).done|], f) == Some(TryEach(xs, f).done)
    ensures TryEach(xs, f).raised <==> |TryEach(xs, f).done| < |xs|
    ensures TryEach(xs, f).raised ==> f(xs[|TryEach(xs, f).done|]).None?
    decreases |xs|
  {
    if xs == [] {
      assert xs[..0] == [];
    } else {
      var init := xs[..|xs| - 1];
      TryEachPrefix(init, f);
      var k := |TryEach(init, f).done|;
      assert xs[..k] == init[..k];
      if !TryEach(init, f).raised {
        assert init[..k] == init;
        assert xs[..|xs|] == xs;
      }
    }
  }

  /** One more element for the loop that has not raised yet. */
  lemma TryEachStep<A, B>(xs: seq<A>, f: A -> Option<B>, i: nat, done: seq<B>)
    requires i < |xs| && TryEach(xs[..i], f) == Partial(done, false)
    ensures TryEach(xs[..i + 1], f) ==
      match f(xs[i]) case Some(y) => Partial(done + [y], false) case None => Partial(done, true)
  {
    assert xs[..i + 1][..i] == xs[..i];
  }

  /** The loop stops at its first exception: what follows is never read. */
  lemma {:induction false} TryEachStops<A, B>(xs: seq<A>, f: A -> Option<B>, i: nat)
    requires i <= |xs| && TryEach(xs[..i], f).raised
    ensures TryEach(xs, f) == TryEach(xs[..i], f)
    decreases |xs|
  {
    if i == |xs| {
      assert xs[..i] == xs;
    } else {
      var init := xs[..|xs| - 1];
      assert init[..i] == xs[..i];
      TryEachStops(init, f, i);
    }
  }

  /** Concatenation is associative; stated generically, it saves the solver from
      comparing the elements of nested sequences. */
  lemma AppendAssoc<T>(a: seq<T>, b: seq<T>, c: seq<T>)
    ensures a + b + c == a + (b + c)
  {
  }

  /** A non-empty sequence is its front and its last element. */
  lemma SplitLast<T>(s: seq<T>)
    requires s != []
    ensures s == s[..|s| - 1] + [s[|s| - 1]]
  {
  }

  /** Taking the same element out of two equal multisets leaves equal multisets. */
  lemma MultisetCancel<T>(m1: multiset<T>, m2: multiset<T>, x: T)
    requires multiset{x} + m1 == multiset{x} + m2
    ensures m1 == m2
  {
    forall e ensures m1[e] == m2[e] {
      assert (multiset{x} + m1)[e] == (multiset{x} + m2)[e];
    }
  }

  /** Once an element of a prefix cannot be handled, the whole loop raises. */
  lemma {:induction false} TryMapStops<A, B>(xs: seq<A>, f: A -> Option<B>, k: nat)
    requires k <= |xs| && TryMap(xs[..k], f).None?
    ensures TryMap(xs, f).None?
    decreases |xs|
  {
    if k < |xs| {
      assert xs[..|xs| - 1][..k] == xs[..k];
      TryMapStops(xs[..|xs| - 1], f, k);
    } else {
      assert xs[..k] == xs;
    }
  }

  // ---------------------------------------------------------------------------
  // int()

  datatype IntConversion = Converted(n: int) | ValueErr | TypeErr

  /** Python's `int(v)` on a decoded JSON value. */
  function IntOf(v: Json): IntConversion {
    match v
    case JBool(b) => Converted(if b then 1 else 0)
    case JInt(i) => Converted(i)
    case JStr(s) => (match ParseIntLiteral(s) case Some(n) => Converted(n) case None => ValueErr)
    case _ => TypeErr
  }

  /** The whitespace `str.strip()` removes: every character `str.isspace` accepts. */
  predicate IsSpace(c: char) {
    (9 <= c as int <= 13) || (28 <= c as int <= 32) || c as int == 0x85 || c as int == 0xA0 ||
    c as int == 0x1680 || (0x2000 <= c as int <= 0x200A) || c as int == 0x2028 ||
    c as int == 0x2029 || c as int == 0x202F || c as int == 0x205F || c as int == 0x3000
  }

  /** The whitespace `int()` skips around a literal: the same characters except the
      separators U+001C to U+001F, which it rejects. */
  predicate IsIntSpace(c: char) {
    IsSpace(c) && !(28 <= c as int <= 31)
  }

  predicate IsDigit(c: char) {
    '0' <= c <= '9'
  }

  predicate IsDigits(d: string) {
    |d| > 0 && forall i :: 0 <= i < |d| ==> IsDigit(d[i])
  }

  /** `s` without its leading characters of `ws`. */
  function LStrip(s: string, ws: char -> bool): string {
    if s != [] && ws(s[0]) then LStrip(s[1..], ws) else s
  }

  /** `s` without its trailing characters of `ws`. */
  function RStrip(s: string, ws: char -> bool): string {
    if s != [] && ws(s[|s| - 1]) then RStrip(s[..|s| - 1], ws) else s
  }

  /** Stripping the leading whitespace removes it and nothing else. */
  lemma {:induction false} LStripMeaning(s: string, ws: char -> bool)
    ensures |LStrip(s, ws)| <= |s| && LStrip(s, ws) == s[|s| - |LStrip(s, ws)|..]
    ensures forall i :: 0 <= i < |s| - |LStrip(s, ws)| ==> ws(s[i])
    ensures LStrip(s, ws) != [] ==> !ws(LStrip(s, ws)[0])
  {
    if s != [] && ws(s[0]) {
      LStripMeaning(s[1..], ws);
      forall i | 0 <= i < |s| - |LStrip(s, ws)| ensures ws(s[i]) {
        if i > 0 { assert s[i] == s[1..][i - 1]; }
      }
    }
  }

  /** Stripping the trailing whitespace removes it and nothing else. */
  lemma {:induction false} RStripMeaning(s: string, ws: char -> bool)
    ensures |RStrip(s, ws)| <= |s| && RStrip(s, ws) == s[..|RStrip(s, ws)|]
    ensures forall i :: |RStrip(s, ws)| <= i < |s| ==> ws(s[i])
    ensures RStrip(s, ws) != [] ==> !ws(RStrip(s, ws)[|RStrip(s, ws)| - 1])
  {
    if s != [] && ws(s[|s| - 1]) {
      RStripMeaning(s[..|s| - 1], ws);
      forall i | |RStrip(s, ws)| <= i < |s| ensures ws(s[i]) {
        if i < |s| - 1 { assert s[i] == s[..|s| - 1][i]; }
      }
    }
  }

  /** Python's `s.strip()`. */
  function Strip(s: string): string {
    RStrip(LStrip(s, IsSpace), IsSpace)
  }

  /** The whitespace `int()` removes from its argument before reading it. */
  function IntStrip(s: string): string {
    RStrip(LStrip(s, IsIntSpace), IsIntSpace)
  }

  /** CPython's default `sys.get_int_max_str_digits()`: `int()` refuses decimal text
      with more digits than this, with a ValueError. */
  const MAX_STR_DIGITS := 4300

  /** Value of a string of decimal digits. */
  function DigitsValue(d: string): nat {
    if d == [] then 0
    else 10 * DigitsValue(d[..|d| - 1]) + (d[|d| - 1] as int - '0' as int) % 10
  }

  /** Python's `int(s)` on a string: surrounding whitespace, an optional sign and at
      least one ASCII digit, at most MAX_STR_DIGITS of them; None stands for the
      ValueError. */
  function ParseIntLiteral(s: string): Option<int> {
    ParseStripped(IntStrip(s))
  }

  /** `int()` once the whitespace is gone: an optional sign, then digits only. */
  function ParseStripped(t: string): Option<int> {
    if t != [] && (t[0] == '-' || t[0] == '+') then
      if IsDigits(t[1..]) && |t| - 1 <= MAX_STR_DIGITS then
        var n: int := if t[0] == '-' then -(DigitsValue(t[1..]) as int) else DigitsValue(t[1..]);
        Some(n)
      else None
    else if IsDigits(t) && |t| <= MAX_STR_DIGITS then Some(DigitsValue(t))
    else None
  }

  function Digit(k: nat): (c: char)
    requires k < 10
    ensures IsDigit(c) && c as int - '0' as int == k
  {
    ('0' as int + k) as char
  }

  /** Decimal digits of a natural number, as `str(n)` writes them. */
  function Decimal(n: nat): (d: string)
    ensures IsDigits(d)
  {
    if n < 10 then [Digit(n)] else Decimal(n / 10) + [Digit(n % 10)]
  }

  /** `str(i)` for an integer. */
  function IntToDecimal(i: int): string {
    if i < 0 then "-" + Decimal(-i) else Decimal(i)
  }

  /** The number of digits `str(i)` writes. */
  function DigitCount(i: int): nat {
    |Decimal(if i < 0 then -i else i)|
  }

  lemma {:induction false} DecimalValue(n: nat)
    ensures DigitsValue(Decimal(n)) == n
  {
    if n >= 10 {
      var d := Decimal(n);
      assert d[..|d| - 1] == Decimal(n / 10);
      DecimalValue(n / 10);
    }
  }

  /** Text that neither starts nor ends with whitespace is left as it is. */
  lemma NoSpaceStrip(t: string, ws: char -> bool)
    requires t != [] ==> !ws(t[0]) && !ws(t[|t| - 1])
    ensures RStrip(LStrip(t, ws), ws) == t
  {
    assert LStrip(t, ws) == t;
  }

  /** `str(i)` is a non-empty run of digits, after a minus sign when `i` is negative. */
  lemma DecimalShape(i: int)
    ensures var d := IntToDecimal(i);
      d != [] && !IsSpace(d[0]) && !IsSpace(d[|d| - 1]) &&
      forall k :: 0 <= k < |d| ==> IsDigit(d[k]) || d[k] == '-'
  {
    var d := IntToDecimal(i);
    if i < 0 {
      var e := Decimal(-i);
      assert d == "-" + e;
      forall k | 0 <= k < |d| ensures IsDigit(d[k]) || d[k] == '-' {
        if k > 0 { assert d[k] == e[k - 1]; }
      }
    }
  }

  /** Leading whitespace before a text that starts with none is stripped off. */
  lemma {:induction false} LStripPrefix(l: string, x: string, ws: char -> bool)
    requires forall k :: 0 <= k < |l| ==> ws(l[k])
    requires x != [] ==> !ws(x[0])
    ensures LStrip(l + x, ws) == x
  {
    if l != [] {
      assert (l + x)[1..] == l[1..] + x;
      LStripPrefix(l[1..], x, ws);
    }
  }

  /** Trailing whitespace after a text that ends with none is stripped off. */
  lemma {:induction false} RStripSuffix(x: string, r: string, ws: char -> bool)
    requires forall k :: 0 <= k < |r| ==> ws(r[k])
    requires x != [] ==> !ws(x[|x| - 1])
    ensures RStrip(x + r, ws) == x
  {
    if r != [] {
      assert (x + r)[..|x + r| - 1] == x + r[..|r| - 1];
      RStripSuffix(x, r[..|r| - 1], ws);
    } else {
      assert x + r == x;
    }
  }

  /** Whitespace of any kind around a word is stripped off. */
  lemma StripSpaces(l: string, t: string, r: string)
    requires forall k :: 0 <= k < |l| ==> IsSpace(l[k])
    requires forall k :: 0 <= k < |r| ==> IsSpace(r[k])
    requires t != [] && !IsSpace(t[0]) && !IsSpace(t[|t| - 1])
    ensures Strip(l + t + r) == t
  {
    assert l + t + r == l + (t + r);
    LStripPrefix(l, t + r, IsSpace);
    RStripSuffix(t, r, IsSpace);
  }

  /** One space on each side of a word is stripped off. */
  lemma StripPadded(t: string)
    requires t != [] && !IsSpace(t[0]) && !IsSpace(t[|t| - 1])
    ensures Strip(" " + t + " ") == t
  {
    StripSpaces(" ", t, " ");
  }

  /** `str(i)` has nothing for `strip()` or `int()` to remove. */
  lemma DecimalStripped(i: int)
    ensures Strip(IntToDecimal(i)) == IntToDecimal(i)
    ensures IntStrip(IntToDecimal(i)) == IntToDecimal(i)
  {
    DecimalShape(i);
    NoSpaceStrip(IntToDecimal(i), IsSpace);
    NoSpaceStrip(IntToDecimal(i), IsIntSpace);
  }

  /** The sign and digits of `str(i)` read back as `i`, unless there are too many. */
  lemma ParseDecimal(i: int)
    ensures ParseStripped(IntToDecimal(i)) == if DigitCount(i) <= MAX_STR_DIGITS then Some(i) else None
  {
    if i < 0 {
      var d := Decimal(-i);
      var t := IntToDecimal(i);
      assert t == "-" + d;
      assert t[0] == '-' && t[1..] == d;
      DecimalValue(-i);
    } else {
      var d := Decimal(i);
      assert IsDigit(d[0]);
      DecimalValue(i);
    }
  }

  /** `int(str(i)) == i`: the printed form of every integer of at most
      MAX_STR_DIGITS digits parses back to it; a longer one raises. */
  lemma ParseIntRoundTrip(i: int)
    ensures ParseIntLiteral(IntToDecimal(i)) == if DigitCount(i) <= MAX_STR_DIGITS then Some(i) else None
  {
    DecimalStripped(i);
    ParseDecimal(i);
  }

  /** Stripping keeps a run of the characters of the text. */
  lemma StripChars(s: string, ws: char -> bool, i: nat)
    requires i < |RStrip(LStrip(s, ws), ws)|
    ensures exists j :: 0 <= j < |s| && s[j] == RStrip(LStrip(s, ws), ws)[i]
  {
    var l := LStrip(s, ws);
    LStripMeaning(s, ws);
    RStripMeaning(l, ws);
    assert RStrip(l, ws)[i] == l[i];
    assert l[i] == s[|s| - |l| + i];
  }

  /** A text without a digit is not an integer literal. */
  lemma NoDigitsParse(s: string)
    requires forall i :: 0 <= i < |s| ==> !IsDigit(s[i])
    ensures ParseIntLiteral(s) == None
  {
    var t := IntStrip(s);
    if t != [] {
      StripChars(s, IsIntSpace, 0);
      if |t| > 1 {
        StripChars(s, IsIntSpace, 1);
        assert t[1..][0] == t[1];
      }
    }
  }

  // ---------------------------------------------------------------------------
  // time.sleep and asyncio.sleep

  /** The least whole number of seconds `time.sleep` refuses with an OverflowError: it
      counts in nanoseconds in a signed 64-bit integer, whose largest value is
      2^63 - 1. A negative number is refused too, with a ValueError. */
  const SLEEP_LIMIT := 9223372037

  const TWO_TO_97: int := 0x2_0000_0000_0000_0000_0000_0000

  /** The least integer that rounds past the largest double (2^1024 - 2^971), that is
      2^1024 - 2^970 = (2^54 - 1) * 2^970: from here on the conversion to float that
      `asyncio.sleep` makes raises an OverflowError. */
  const FLOAT_LIMIT: int := 0x3F_FFFF_FFFF_FFFF * TWO_TO_97 * TWO_TO_97 * TWO_TO_97 * TWO_TO_97 * TWO_TO_97 *
    TWO_TO_97 * TWO_TO_97 * TWO_TO_97 * TWO_TO_97 * TWO_TO_97

  // ---------------------------------------------------------------------------
  // Substrings: `pat in s`, `s.split(pat)`

  predicate OccursAt(s: string, pat: string, i: nat) {
    i + |pat| <= |s| && s[i..i + |pat|] == pat
  }

  function FindFrom(s: string, pat: string, i: nat): (r: Option<nat>)
    requires i <= |s|
    decreases |s| - i
    ensures r.Some? ==> i <= r.value && r.value + |pat| <= |s|
  {
    if OccursAt(s, pat, i) then Some(i)
    else if i == |s| then None
    else FindFrom(s, pat, i + 1)
  }

  /** The search from `i` finds the first occurrence at or after `i`, or reports that
      there is none. */
  lemma {:induction false} FindFromMeaning(s: string, pat: string, i: nat)
    requires i <= |s|
    decreases |s| - i
    ensures FindFrom(s, pat, i).Some? ==> OccursAt(s, pat, FindFrom(s, pat, i).value)
    ensures FindFrom(s, pat, i).Some? ==> forall j :: i <= j < FindFrom(s, pat, i).value ==> !OccursAt(s, pat, j)
    ensures FindFrom(s, pat, i).None? ==> forall j :: i <= j <= |s| ==> !OccursAt(s, pat, j)
  {
    if !OccursAt(s, pat, i) && i < |s| {
      FindFromMeaning(s, pat, i + 1);
    }
  }

  /** Index of the first occurrence of `pat` in `s`. */
  function Find(s: string, pat: string): Option<nat> {
    FindFrom(s, pat, 0)
  }

  /** Python's `pat in s` on strings. */
  predicate Contains(s: string, pat: string) {
    Find(s, pat).Some?
  }

  /** `s.split(pat)[0]`: the text before the first occurrence, or all of `s`. */
  function Before(s: string, pat: string): string {
    match Find(s, pat)
    case Some(i) => s[..i]
    case None => s
  }

  /** The text after the first occurrence of `pat`; `s.split(pat)[1]` is
      `Before(After(s, pat), pat)`. */
  function After(s: string, pat: string): string
    requires Contains(s, pat)
  {
    s[Find(s, pat).value + |pat|..]
  }

  lemma FindIs(s: string, pat: string, k: nat)
    requires OccursAt(s, pat, k)
    requires forall j :: 0 <= j < k ==> !OccursAt(s, pat, j)
    ensures Find(s, pat) == Some(k)
  {
    FindFromMeaning(s, pat, 0);
  }

  lemma FindNone(s: string, pat: string)
    requires forall j :: 0 <= j <= |s| ==> !OccursAt(s, pat, j)
    ensures Find(s, pat) == None
  {
    FindFromMeaning(s, pat, 0);
  }

  /** A text in which the first letter of `pat` never appears does not contain it. */
  lemma NoOccurrence(s: string, pat: string)
    requires pat != [] && forall i :: 0 <= i < |s| ==> s[i] != pat[0]
    ensures Find(s, pat) == None && Before(s, pat) == s
  {
    forall j | 0 <= j <= |s| ensures !OccursAt(s, pat, j) {
      if j + |pat| <= |s| {
        assert s[j..j + |pat|][0] == s[j];
      }
    }
    FindNone(s, pat);
  }

  /** `pat` occurs at `k` and its first letter appears nowhere before: `k` is the
      first occurrence. */
  lemma BeforeAt(s: string, pat: string, k: nat)
    requires pat != [] && OccursAt(s, pat, k)
    requires forall i :: 0 <= i < k ==> s[i] != pat[0]
    ensures Find(s, pat) == Some(k) && Before(s, pat) == s[..k]
  {
    forall j | 0 <= j < k ensures !OccursAt(s, pat, j) {
      if j + |pat| <= |s| {
        assert s[j..j + |pat|][0] == s[j];
      }
    }
    FindIs(s, pat, k);
  }

  // ---------------------------------------------------------------------------
  // str() of a decoded value

  function Join(parts: seq<string>, sep: string): string {
    if parts == [] then ""
    else if |parts| == 1 then parts[0]
    else Join(parts[..|parts| - 1], sep) + sep + parts[|parts| - 1]
  }

  function HexDigit(k: nat): char
    requires k < 16
  {
    if k < 10 then Digit(k) else ('a' as int + (k - 10)) as char
  }

  /** One character of a string literal inside `repr`, quoted with `q`. */
  function EscapeChar(c: char, q: char): string {
    if c == '\\' then "\\\\"
    else if c == q then ['\\', q]
    else if c == '\n' then "\\n"
    else if c == '\r' then "\\r"
    else if c == '\t' then "\\t"
    else if c as int < 32 || 127 <= c as int <= 160 || c as int == 173 then
      ['\\', 'x', HexDigit(c as int / 16), HexDigit(c as int % 16)]
    else [c]
  }

  function EscapeAll(s: string, q: char): string {
    if s == [] then "" else EscapeAll(s[..|s| - 1], q) + EscapeChar(s[|s| - 1], q)
  }

  /** `repr` of a string: single quotes, unless the text holds a single quote and no
      double quote. */
  function QuoteStr(s: string): string {
    var q := if '\'' in s && '"' !in s then '"' else '\'';
    [q] + EscapeAll(s, q) + [q]
  }

  /** Python's `repr(v)` of a decoded JSON value; a list or dict shows its parts by
      `repr` too. Of the characters above U+00FF only the ASCII-range escapes are
      written: the ones `str.isprintable` rejects there are kept as they are. */
  function Repr(v: Json): string
    decreases v
  {
    match v
    case JNull => "None"
    case JBool(b) => if b then "True" else "False"
    case JInt(i) => IntToDecimal(i)
    case JStr(s) => QuoteStr(s)
    case JArr(es) =>
      "[" + Join(seq(|es|, k requires 0 <= k < |es| => Repr(es[k])), ", ") + "]"
    case JObj(f) =>
      "{" + Join(seq(|f|, k requires 0 <= k < |f| => QuoteStr(f[k].0) + ": " + Repr(f[k].1)), ", ") + "}"
  }

  /** Python's `str(v)`: a string is itself, unquoted; anything else is its `repr`. */
  function Str(v: Json): string {
    if v.JStr? then v.s else Repr(v)
  }

  /** A character `repr` writes as it is inside single quotes. */
  predicate Plain(c: char) {
    c != '\\' && c != '\'' && 32 <= c as int < 127
  }

  lemma {:induction false} EscapePlain(s: string)
    requires forall i :: 0 <= i < |s| ==> Plain(s[i])
    ensures EscapeAll(s, '\'') == s
  {
    if s != [] {
      EscapePlain(s[..|s| - 1]);
      assert s == s[..|s| - 1] + [s[|s| - 1]];
    }
  }

  /** A plain text is quoted with single quotes and nothing escaped. */
  lemma QuotePlain(s: string)
    requires forall i :: 0 <= i < |s| ==> Plain(s[i])
    ensures QuoteStr(s) == "'" + s + "'"
  {
    EscapePlain(s);
    assert '\'' !in s;
  }

  /** A one-element list shows its element's `repr` in brackets. */
  lemma ReprSingleton(v: Json)
    ensures Repr(JArr([v])) == "[" + Repr(v) + "]"
  {
    var parts := seq(1, k requires 0 <= k < 1 => Repr([v][k]));
    assert parts == [Repr(v)];
  }

  /** `str` leaves a string bare but quotes it inside a list: `str("ab")` is `ab`
      while `str(["ab"])` is `['ab']`. */
  lemma StrQuotesOnlyNested(s: string)
    requires forall i :: 0 <= i < |s| ==> Plain(s[i])
    ensures Str(JStr(s)) == s
    ensures Str(JArr([JStr(s)])) == "['" + s + "']"
    ensures Str(JArr([])) == "[]"
  {
    QuotePlain(s);
    ReprSingleton(JStr(s));
    assert Join([], ", ") == "";
  }
}
