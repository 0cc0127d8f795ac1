/** Numbers and lists of numbers on the command line: str_to_uint64 (src/xz/util.c)
    and parse_block_list (src/xz/args.c). */
module UtilArgs {
  import BlockSplit

  const UINT64_MAX: nat := BlockSplit.MAX

  /** A C string, without its terminating null character. */
  type cstring = s: string | forall i :: 0 <= i < |s| ==> s[i] != '\0'

  datatype Error = NotDecimal | InvalidSuffix | OutOfRange
                 | InvalidList | TooManyEntries | ZeroNotLast

  datatype Result<T> = Ok(value: T) | Err(error: Error)

  // ---------- what a number means ----------

  predicate IsDigit(c: char) { '0' <= c <= '9' }

  predicate IsBlank(c: char) { c == ' ' || c == '\t' }

  function Digit(c: char): nat
    requires IsDigit(c)
  {
    c as int - '0' as int
  }

  predicate AllDigits(s: string) {
    forall i :: 0 <= i < |s| ==> IsDigit(s[i])
  }

  /** The value of a string of digits, however large. */
  function Decimal(s: string): nat
    requires AllDigits(s)
  {
    if s == "" then 0 else 10 * Decimal(s[..|s| - 1]) + Digit(s[|s| - 1])
  }

  /** The length of the longest beginning that satisfies a predicate. */
  function Span(p: char -> bool, s: string): (n: nat)
    ensures n <= |s|
    ensures forall i :: 0 <= i < n ==> p(s[i])
    ensures n < |s| ==> !p(s[n])
  {
    if s == "" || !p(s[0]) then 0 else 1 + Span(p, s[1..])
  }

  /** What a suffix multiplies by; 0 when it is not a suffix. */
  function Multiplier(s: string): nat {
    if s == "" then 1
    else if s[1..] !in {"", "i", "iB", "B"} then 0
    else if s[0] == 'k' || s[0] == 'K' then 0x400
    else if s[0] == 'm' || s[0] == 'M' then 0x10_0000
    else if s[0] == 'g' || s[0] == 'G' then 0x4000_0000
    else 0
  }

  /** str_to_uint64 on a number without blanks, in unbounded arithmetic. */
  function Number(s: string, min: nat, max: nat): Result<nat> {
    var d := Span(IsDigit, s);
    if s == "max" then Ok(max)
    else if d == 0 then Err(NotDecimal)
    else if Decimal(s[..d]) > UINT64_MAX then Err(OutOfRange)
    else if Multiplier(s[d..]) == 0 then Err(InvalidSuffix)
    else
      var n := Decimal(s[..d]) * Multiplier(s[d..]);
      if min <= n <= max then Ok(n) else Err(OutOfRange)
  }

  function Parse(s: string, min: nat, max: nat): Result<nat> {
    Number(s[Span(IsBlank, s)..], min, max)
  }

  lemma SpanIs(p: char -> bool, s: string, n: nat)
    requires n <= |s| && (forall i :: 0 <= i < n ==> p(s[i])) && (n < |s| ==> !p(s[n]))
    ensures Span(p, s) == n
  {}

  lemma SuffixIsNotDigit(s: string)
    requires s != "" && Multiplier(s) != 0
    ensures !IsDigit(s[0])
  {}

  // ---------- digits and suffixes ----------

  const DIGITS := "0123456789"

  /** n as it is written. */
  function Rendered(n: nat): string {
    if n < 10 then [DIGITS[n]] else Rendered(n / 10) + [DIGITS[n % 10]]
  }

  lemma DigitIs(d: nat)
    requires d < 10
    ensures IsDigit(DIGITS[d]) && Digit(DIGITS[d]) == d
  {
  }

  /** A written number has the value it was written for. */
  lemma {:induction false} RenderedIsRead(n: nat)
    ensures Rendered(n) != "" && AllDigits(Rendered(n)) && Decimal(Rendered(n)) == n
  {
    hide Digit, DIGITS;
    DigitIs(n % 10);
    var s := Rendered(n);
    if n < 10 {
      DecimalNothing(s[..0]);
    } else {
      RenderedIsRead(n / 10);
      assert s[..|s| - 1] == Rendered(n / 10);
    }
  }

  lemma DigitsOnly(c: char)
    ensures IsDigit(c) <==> c in DIGITS
    ensures IsBlank(c) <==> c in " \t"
  {
    if IsDigit(c) {
      var d := c as int - '0' as int;
      assert DIGITS[d] == c;
    }
  }

  function Power1024(n: nat): nat {
    if n == 0 then 1 else 1024 * Power1024(n - 1)
  }

  /** K, M and G, in either case and with "i", "B" or "iB" or nothing after it, are the
      powers of 1024; nothing else is a suffix. */
  lemma SuffixIff(s: string)
    ensures Multiplier(s) == Power1024(0) <==> s == ""
    ensures Multiplier(s) == Power1024(1) <==> s != "" && s[0] in "kK" && s[1..] in {"", "i", "iB", "B"}
    ensures Multiplier(s) == Power1024(2) <==> s != "" && s[0] in "mM" && s[1..] in {"", "i", "iB", "B"}
    ensures Multiplier(s) == Power1024(3) <==> s != "" && s[0] in "gG" && s[1..] in {"", "i", "iB", "B"}
    ensures Multiplier(s) in {0, Power1024(0), Power1024(1), Power1024(2), Power1024(3)}
  {
    assert Power1024(0) == 1 && Power1024(1) == 0x400 && Power1024(2) == 0x10_0000 && Power1024(3) == 0x4000_0000;
    hide Power1024;
  }

  /** A number is accepted exactly when its true value lies in the range. */
  lemma AcceptedIff(blanks: string, digits: string, suffix: string, min: nat, max: nat)
    requires forall i :: 0 <= i < |blanks| ==> IsBlank(blanks[i])
    requires digits != "" && AllDigits(digits)
    requires Multiplier(suffix) != 0 && max <= UINT64_MAX
    ensures var n := Decimal(digits) * Multiplier(suffix);
            Parse(blanks + digits + suffix, min, max) == if min <= n <= max then Ok(n) else Err(OutOfRange)
  {
    var s, t := blanks + digits + suffix, digits + suffix;
    if suffix != "" {
      SuffixIsNotDigit(suffix);
    }
    BlanksEnd(blanks, t);
    DigitsEnd(digits, suffix);
    hide Decimal, Multiplier, Span;
    assert s == blanks + t;
    assert IsDigit(t[0]);
    AtLeast(Decimal(digits), Multiplier(suffix));
  }

  lemma AtLeast(n: nat, m: nat)
    requires m != 0
    ensures n <= n * m
  {}

  /** What is rejected, and how: s is blanks, digits, and a rest that begins with no digit. */
  lemma RejectedIff(blanks: string, digits: string, rest: string, min: nat, max: nat)
    requires forall i :: 0 <= i < |blanks| ==> IsBlank(blanks[i])
    requires AllDigits(digits) && (rest != "" ==> !IsDigit(rest[0]) && (digits == "" ==> !IsBlank(rest[0])))
    requires max <= UINT64_MAX
    ensures var r, n := Parse(blanks + digits + rest, min, max), Decimal(digits) * Multiplier(rest);
            && (r == Err(NotDecimal) <==> digits == "" && rest != "max")
            && (r == Err(InvalidSuffix) <==> digits != "" && Decimal(digits) <= UINT64_MAX && Multiplier(rest) == 0)
            && (r == Err(OutOfRange) <==>
                  digits != "" && (Decimal(digits) > UINT64_MAX || (Multiplier(rest) != 0 && !(min <= n <= max))))
  {
    var s, t := blanks + digits + rest, digits + rest;
    BlanksEnd(blanks, t);
    DigitsEnd(digits, rest);
    assert s == blanks + t;
    hide Decimal, Multiplier, Span;
    if digits != "" {
      assert IsDigit(t[0]);
    } else {
      assert t == rest;
    }
  }

  lemma BlanksEnd(blanks: string, t: string)
    requires forall i :: 0 <= i < |blanks| ==> IsBlank(blanks[i])
    requires t != "" ==> !IsBlank(t[0])
    ensures Span(IsBlank, blanks + t) == |blanks| && (blanks + t)[|blanks|..] == t
  {
    var s := blanks + t;
    assert t != "" ==> s[|blanks|] == t[0];
    hide Span;
    SpanIs(IsBlank, s, |blanks|);
  }

  lemma DigitsEnd(digits: string, rest: string)
    requires AllDigits(digits) && (rest != "" ==> !IsDigit(rest[0]))
    ensures var t := digits + rest;
            Span(IsDigit, t) == |digits| && t[..|digits|] == digits && t[|digits|..] == rest
  {
    var t := digits + rest;
    assert rest != "" ==> t[|digits|] == rest[0];
    hide Span;
    SpanIs(IsDigit, t, |digits|);
  }

  /** Whatever is accepted is such a number, or the word "max". */
  lemma OnlyNumbersAreAccepted(s: string, min: nat, max: nat)
    requires Parse(s, min, max).Ok?
    ensures var t := s[Span(IsBlank, s)..];
            var d := Span(IsDigit, t);
            if t == "max" then Parse(s, min, max).value == max
            else d > 0 && Multiplier(t[d..]) != 0
                 && Parse(s, min, max).value == Decimal(t[..d]) * Multiplier(t[d..])
                 && min <= Parse(s, min, max).value <= max
  {}

  // ---------- str_to_uint64 ----------

  /** A character of a C string, or the null character at its end. */
  function At(s: cstring, i: nat): char
    requires i <= |s|
  {
    if i < |s| then s[i] else '\0'
  }

  lemma {:induction false} DecimalGrows(s: string, k: nat)
    requires AllDigits(s) && k <= |s|
    ensures AllDigits(s[..k]) && Decimal(s[..k]) <= Decimal(s)
    decreases |s|
  {
    if k < |s| {
      DecimalGrows(s[..|s| - 1], k);
      assert s[..|s| - 1][..k] == s[..k];
    } else {
      assert s[..k] == s;
    }
  }

  lemma DecimalNext(s: string, k: nat)
    requires AllDigits(s) && k < |s|
    ensures AllDigits(s[..k]) && AllDigits(s[..k + 1])
    ensures Decimal(s[..k + 1]) == 10 * Decimal(s[..k]) + Digit(s[k])
  {
    assert s[..k + 1][..k] == s[..k];
  }

  lemma OverflowIff(n: nat, m: nat)
    requires m in {0x400, 0x10_0000, 0x4000_0000}
    ensures n > UINT64_MAX / m <==> n * m > UINT64_MAX
  {
    if m == 0x400 {
    } else if m == 0x10_0000 {
    } else {
    }
  }

  method SkipBlanks(value: cstring) returns (i: nat)
    ensures i == Span(IsBlank, value)
  {
    i := 0;
    while At(value, i) == ' ' || At(value, i) == '\t'
      invariant i <= |value|
      invariant forall k :: 0 <= k < i ==> IsBlank(value[k])
      decreases |value| - i
    {
      i := i + 1;
    }
    SpanIs(IsBlank, value, i);
  }

  /** The digits, with the checks that keep `result` in 64 bits.  `end` is where they end. */
  method ReadDigits(value: cstring) returns (overflow: bool, result: nat, end: nat)
    requires Span(IsDigit, value) > 0
    ensures var n := Decimal(value[..Span(IsDigit, value)]);
            if n > UINT64_MAX then overflow else !overflow && result == n && end == Span(IsDigit, value)
  {
    hide Decimal, Span;
    ghost var digits := value[..Span(IsDigit, value)];
    result, end := 0, 0;
    DecimalNothing(digits[..0]);
    while IsDigit(At(value, end))
      invariant end <= |digits| && Decimal(digits[..end]) == result <= UINT64_MAX
      decreases |digits| - end
    {
      assert end < |digits|;
      DecimalNext(digits, end);
      DecimalGrows(digits, end + 1);
      if result > UINT64_MAX / 10 {
        return true, result, end;
      }
      result := result * 10;
      var add := Digit(At(value, end));
      if UINT64_MAX - add < result {
        return true, result, end;
      }
      result := result + add;
      end := end + 1;
    }
    assert end == |digits|;
    assert digits[..end] == digits;
    overflow := false;
  }

  lemma DecimalNothing(s: string)
    requires s == ""
    ensures Decimal(s) == 0
  {}

  /** The suffix after the digits. */
  method ReadSuffix(value: cstring) returns (multiplier: nat)
    requires value != ""
    ensures multiplier == Multiplier(value)
  {
    multiplier := 0;
    if value[0] == 'k' || value[0] == 'K' {
      multiplier := 0x400;
    } else if value[0] == 'm' || value[0] == 'M' {
      multiplier := 0x10_0000;
    } else if value[0] == 'g' || value[0] == 'G' {
      multiplier := 0x4000_0000;
    }
    var rest := value[1..];
    if rest != "" && rest != "i" && rest != "iB" && rest != "B" {
      multiplier := 0;
    }
  }

  method StrToUint64(value: cstring, min: nat, max: nat) returns (r: Result<nat>)
    requires max <= UINT64_MAX
    ensures r == Parse(value, min, max)
  {
    hide Decimal, Span, Multiplier;
    var start := SkipBlanks(value);
    var number: cstring := value[start..];
    if number == "max" {
      return Ok(max);
    }
    ghost var d := Span(IsDigit, number);
    if !IsDigit(At(number, 0)) {
      assert d == 0;
      return Err(NotDecimal);
    }
    assert d > 0;
    var overflow, result, end := ReadDigits(number);
    if overflow {
      return Err(OutOfRange);
    }
    if end < |number| {
      var multiplier := ReadSuffix(number[end..]);
      if multiplier == 0 {
        return Err(InvalidSuffix);
      }
      MultiplierIs(number[end..]);
      OverflowIff(result, multiplier);
      if result > UINT64_MAX / multiplier {
        return Err(OutOfRange);
      }
      result := result * multiplier;
    } else {
      MultiplierIs(number[end..]);
    }
    if result < min || result > max {
      return Err(OutOfRange);
    }
    return Ok(result);
  }

  lemma MultiplierIs(s: string)
    ensures s == "" ==> Multiplier(s) == 1
    ensures s != "" ==> Multiplier(s) in {0, 0x400, 0x10_0000, 0x4000_0000}
  {}

  // ---------- what a list means ----------

  function Comma(s: string): (n: nat)
    ensures n <= |s| && ',' !in s[..n] && (n < |s| ==> s[n] == ',')
  {
    Span(c => c != ',', s)
  }

  /** The strings between the commas. */
  function Fields(s: string): (f: seq<string>)
    ensures f != []
    decreases |s|
  {
    var n := Comma(s);
    if n == |s| then [s] else [s[..n]] + Fields(s[n + 1..])
  }

  function Join(f: seq<string>): string
    requires f != []
  {
    if |f| == 1 then f[0] else f[0] + "," + Join(f[1..])
  }

  /** Cutting at the commas loses nothing else, and leaves no comma. */
  lemma {:induction false} FieldsJoin(s: string)
    ensures Join(Fields(s)) == s
    ensures forall i :: 0 <= i < |Fields(s)| ==> ',' !in Fields(s)[i]
    decreases |s|
  {
    var n := Comma(s);
    if n == |s| {
      assert s[..n] == s;
    } else {
      FieldsJoin(s[n + 1..]);
      assert Fields(s) == [s[..n]] + Fields(s[n + 1..]);
      assert s == s[..n] + "," + s[n + 1..];
    }
  }

  function Commas(s: string): nat {
    if s == "" then 0 else Commas(s[..|s| - 1]) + if s[|s| - 1] == ',' then 1 else 0
  }

  lemma {:induction false} CommasAppend(a: string, b: string)
    ensures Commas(a + b) == Commas(a) + Commas(b)
    decreases |b|
  {
    if b == "" {
      assert a + b == a;
    } else {
      assert (a + b)[..|a + b| - 1] == a + b[..|b| - 1];
      CommasAppend(a, b[..|b| - 1]);
    }
  }

  lemma {:induction false} NoCommas(s: string)
    requires ',' !in s
    ensures Commas(s) == 0
    decreases |s|
  {
    if s != "" {
      NoCommas(s[..|s| - 1]);
    }
  }

  lemma CommaFirst(s: string)
    requires s != "" && s[0] == ','
    ensures Commas(s) == 1 + Commas(s[1..])
  {
    assert s == "," + s[1..] && ","[..0] == "";
    CommasAppend(",", s[1..]);
  }

  lemma {:induction false} FieldsCount(s: string)
    ensures |Fields(s)| == Commas(s) + 1
    decreases |s|
  {
    hide Commas, Comma;
    var n := Comma(s);
    NoCommas(s[..n]);
    assert s == s[..n] + s[n..];
    CommasAppend(s[..n], s[n..]);
    if n < |s| {
      FieldsCount(s[n + 1..]);
      CommaFirst(s[n..]);
      assert s[n..][1..] == s[n + 1..];
    } else {
      NoCommas(s[n..]);
    }
  }

  /** The entry for the next field, after those in `list`. */
  function Entry(field: string, list: seq<nat>, last: bool): Result<nat> {
    if field == "" then if list == [] then Err(InvalidList) else Ok(list[|list| - 1])
    else match Parse(field, 0, UINT64_MAX)
      case Err(e) => Err(e)
      case Ok(n) => if n > 0 then Ok(n) else if last then Ok(UINT64_MAX) else Err(ZeroNotLast)
  }

  /** The entries for the first k fields, unless one of them is wrong. */
  function Entries(f: seq<string>, k: nat): (r: Result<seq<nat>>)
    requires k <= |f|
    ensures r.Ok? ==> |r.value| == k
  {
    if k == 0 then Ok([])
    else match Entries(f, k - 1)
      case Err(e) => Err(e)
      case Ok(list) =>
        match Entry(f[k - 1], list, k == |f|)
        case Err(e) => Err(e)
        case Ok(n) => Ok(list + [n])
  }

  function BlockList(s: string, sizeMax: nat): Result<seq<nat>> {
    if s == "" || s[0] == ',' then Err(InvalidList)
    else if |Fields(s)| > sizeMax / 8 - 1 then Err(TooManyEntries)
    else match Entries(Fields(s), |Fields(s)|)
      case Err(e) => Err(e)
      case Ok(list) => Ok(list + [0])
  }

  lemma ParseInRange(s: string, min: nat, max: nat)
    requires Parse(s, min, max).Ok? && min <= max
    ensures min <= Parse(s, min, max).value <= max
  {}

  lemma {:induction false} EntriesArePositive(f: seq<string>, k: nat)
    requires k <= |f| && Entries(f, k).Ok?
    ensures forall i :: 0 <= i < k ==> 0 < Entries(f, k).value[i] <= UINT64_MAX
  {
    hide Parse;
    if k > 0 {
      EntriesArePositive(f, k - 1);
      if f[k - 1] != "" {
        ParseInRange(f[k - 1], 0, UINT64_MAX);
      }
    }
  }

  /** Every list that is accepted is one that split_block can work with. */
  lemma AcceptedListIsValid(s: string, sizeMax: nat, blockSize: nat, multiThreaded: bool)
    requires BlockList(s, sizeMax).Ok? && blockSize < BlockSplit.MAX
    ensures BlockSplit.Options(blockSize, BlockList(s, sizeMax).value, multiThreaded).Valid()
  {
    hide Entries;
    EntriesArePositive(Fields(s), |Fields(s)|);
  }

  lemma {:induction false} EntriesGrow(f: seq<string>, k: nat, n: nat)
    requires k <= n <= |f| && Entries(f, n).Ok?
    ensures Entries(f, k).Ok? && Entries(f, k).value == Entries(f, n).value[..k]
    decreases n
  {
    hide Entry;
    if k < n {
      EntriesGrow(f, k, n - 1);
    }
  }

  /** Each entry is its field's number; an empty field repeats the entry before it. */
  lemma EntryOfField(s: string, sizeMax: nat, i: nat)
    requires BlockList(s, sizeMax).Ok? && i < |Fields(s)|
    ensures var list := BlockList(s, sizeMax).value;
            var field := Fields(s)[i];
            && |list| == |Fields(s)| + 1
            && (field == "" ==> i > 0 && list[i] == list[i - 1])
            && (field != "" ==>
                  && Parse(field, 0, UINT64_MAX).Ok?
                  && var n := Parse(field, 0, UINT64_MAX).value;
                     if n == 0 then i == |Fields(s)| - 1 && list[i] == UINT64_MAX else list[i] == n)
  {
    hide Parse, Fields;
    var f := Fields(s);
    EntriesGrow(f, i + 1, |f|);
    EntriesGrow(f, i, |f|);
  }

  /** An empty field or a number, 0 only as the last. */
  predicate Good(f: seq<string>, i: nat)
    requires i < |f|
  {
    f[i] != "" ==> Parse(f[i], 0, UINT64_MAX).Ok? && (Parse(f[i], 0, UINT64_MAX).value == 0 ==> i == |f| - 1)
  }

  /** Exactly these lists are accepted: not empty, not beginning with a comma, not too
      many fields, and each of them right. */
  lemma AcceptedListIff(s: string, sizeMax: nat)
    ensures BlockList(s, sizeMax).Ok? <==>
            && s != "" && s[0] != ',' && |Fields(s)| + 1 <= sizeMax / 8
            && forall i :: 0 <= i < |Fields(s)| ==> Good(Fields(s), i)
  {
    hide Parse, Fields, Entries, Good;
    if s != "" && s[0] != ',' {
      NotLeading(s);
      EntriesIff(Fields(s), |Fields(s)|);
    }
  }

  lemma {:induction false} EntriesIff(f: seq<string>, k: nat)
    requires k <= |f| && f != [] && f[0] != ""
    ensures Entries(f, k).Ok? <==> forall i :: 0 <= i < k ==> Good(f, i)
  {
    hide Good, Entry, Entries;
    EntriesStart(f);
    if k > 0 {
      EntriesIff(f, k - 1);
      if Entries(f, k - 1).Ok? {
        EntriesStep(f, k - 1);
        EntryIff(f, k - 1, Entries(f, k - 1).value);
      } else {
        ErrorOnce(f, k);
      }
    }
  }

  lemma ErrorOnce(f: seq<string>, k: nat)
    requires 0 < k <= |f| && Entries(f, k - 1).Err?
    ensures Entries(f, k).Err?
  {
    hide Entry;
  }

  lemma EntryIff(f: seq<string>, i: nat, list: seq<nat>)
    requires i < |f| && |list| == i && f[0] != ""
    ensures Entry(f[i], list, i + 1 == |f|).Ok? <==> Good(f, i)
  {
    hide Parse;
  }

  // ---------- parse_block_list ----------

  /** strchr(str, ','): where the string ends when there is none. */
  method FindComma(str: cstring) returns (p: nat)
    ensures p == Comma(str)
  {
    p := 0;
    while p < |str| && str[p] != ','
      invariant p <= |str| && ',' !in str[..p]
    {
      p := p + 1;
    }
    SpanIs(c => c != ',', str, p);
  }

  method CountFields(str: cstring) returns (count: nat)
    ensures count == |Fields(str)|
  {
    count := 1;
    var i := 0;
    while i < |str|
      invariant i <= |str| && count == Commas(str[..i]) + 1
    {
      assert str[..i + 1][..i] == str[..i];
      if str[i] == ',' {
        count := count + 1;
      }
      i := i + 1;
    }
    assert str[..i] == str;
    FieldsCount(str);
  }

  /** The new opt_block_list. */
  method ParseBlockList(strConst: cstring, sizeMax: nat) returns (r: Result<seq<nat>>)
    ensures r == BlockList(strConst, sizeMax)
  {
    hide Parse, Fields, Comma, Entries;
    if At(strConst, 0) == '\0' || strConst[0] == ',' {
      return Err(InvalidList);
    }
    var count := CountFields(strConst);
    if count > sizeMax / 8 - 1 {
      return Err(TooManyEntries);
    }
    var list: array<nat> := new nat[count + 1];
    var str: cstring := strConst;
    ghost var f := Fields(strConst);
    EntriesStart(f);
    assert f[0..] == f;
    var i := 0;
    while i < count
      invariant i <= count == |f| && list.Length == count + 1
      invariant i < count ==> f[i..] == Fields(str)
      invariant i == 0 ==> str == strConst
      invariant Entries(f, i) == Ok(list[..i])
    {
      var p := FindComma(str);
      FieldsStep(str);
      var field := str[..p];
      assert field == f[i..][0];
      EntriesStep(f, i);
      if |field| == 0 {
        NotLeading(strConst);
        assert i > 0;
        list[i] := list[i - 1];
      } else {
        var number := StrToUint64(field, 0, UINT64_MAX);
        if number.Err? {
          ErrorStays(f, i + 1);
          return Err(number.error);
        }
        list[i] := number.value;
        if list[i] == 0 {
          if i + 1 != count {
            ErrorStays(f, i + 1);
            return Err(ZeroNotLast);
          }
          list[i] := UINT64_MAX;
        }
      }
      assert list[..i + 1] == list[..i] + [list[i]];
      if p < |str| {
        str := str[p + 1..];
      }
      assert i + 1 < count ==> f[i..][1..] == f[i + 1..];
      i := i + 1;
    }
    list[count] := 0;
    assert list[..] == list[..count] + [0];
    return Ok(list[..]);
  }

  lemma EntriesStart(f: seq<string>)
    ensures Entries(f, 0) == Ok([])
  {}

  lemma EntriesStep(f: seq<string>, k: nat)
    requires k < |f| && Entries(f, k).Ok?
    ensures Entries(f, k + 1) ==
            match Entry(f[k], Entries(f, k).value, k + 1 == |f|)
            case Err(e) => Err(e)
            case Ok(n) => Ok(Entries(f, k).value + [n])
  {
    hide Entry;
  }

  lemma {:induction false} ErrorStays(f: seq<string>, k: nat)
    requires k <= |f| && Entries(f, k).Err?
    ensures Entries(f, |f|) == Entries(f, k)
    decreases |f| - k
  {
    hide Entry;
    if k < |f| {
      ErrorStays(f, k + 1);
    }
  }

  lemma FieldsStep(s: string)
    ensures Fields(s)[0] == s[..Comma(s)]
    ensures Comma(s) < |s| ==> Fields(s)[1..] == Fields(s[Comma(s) + 1..])
    ensures Comma(s) == |s| ==> |Fields(s)| == 1
  {
    hide Comma;
    assert s[..|s|] == s;
  }

  lemma NotLeading(s: string)
    requires s != "" && s[0] != ','
    ensures Fields(s)[0] != ""
  {
    hide Comma;
    FieldsStep(s);
  }
}
