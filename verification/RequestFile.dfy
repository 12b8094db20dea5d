/** The access requests on disk, one "user|mode|time" line each. */
module RequestFile {
  import opened Text
  import opened Lines

  /** A long long. */
  type Time = t: int | -0x8000_0000_0000_0000 <= t < 0x8000_0000_0000_0000

  datatype Request = Request(user: string, write: bool, at: Time)

  const BAR := '|'

  // ----- writing

  const DIGITS := "0123456789"

  function Digits(n: nat): string {
    if n < 10 then [DIGITS[n]] else Digits(n / 10) + [DIGITS[n % 10]]
  }

  function Decimal(t: int): string {
    if t < 0 then "-" + Digits(0 - t) else Digits(t)
  }

  function Mode(write: bool): string {
    if write then "write" else "read"
  }

  /** The three fields, without the newline. */
  function Fields(r: Request): string {
    r.user + [BAR] + (Mode(r.write) + [BAR] + Decimal(r.at))
  }

  function Save(rs: seq<Request>): string {
    if rs == [] then "" else Fields(rs[0]) + "\n" + Save(rs[1..])
  }

  method SaveRequests(rs: seq<Request>) returns (text: string)
    ensures text == Save(rs)
  {
    text := "";
    assert rs[0..] == rs;
    for i := 0 to |rs|
      invariant text + Save(rs[i..]) == Save(rs)
    {
      assert rs[i..][1..] == rs[i + 1..];
      text := text + (Fields(rs[i]) + "\n");
    }
  }

  // ----- reading

  const NAME_LENGTH := 127
  const MODE_LENGTH := 15

  predicate IsDigit(c: char) {
    '0' <= c <= '9'
  }

  function DigitsLength(s: string): (n: nat)
    ensures n <= |s| && forall k :: 0 <= k < n ==> IsDigit(s[k])
    ensures n < |s| ==> !IsDigit(s[n])
  {
    if s == "" || !IsDigit(s[0]) then 0 else 1 + DigitsLength(s[1..])
  }

  /** The number a digit string stands for. */
  function Value(s: string): nat
    requires forall k :: 0 <= k < |s| ==> IsDigit(s[k])
  {
    if s == "" then 0
    else
      assert IsDigit(s[|s| - 1]);
      10 * Value(s[..|s| - 1]) + (s[|s| - 1] as int - '0' as int)
  }

  function Clamp(t: int): Time {
    if t < -0x8000_0000_0000_0000 then -0x8000_0000_0000_0000
    else if t >= 0x8000_0000_0000_0000 then 0x7fff_ffff_ffff_ffff
    else t
  }

  /** Digits in front, at least one. */
  function Unsigned(s: string): Option<nat> {
    var n := DigitsLength(s);
    if n == 0 then None else Some(Value(s[..n]))
  }

  /** The %lld at the front of s: white space, a sign, digits. */
  function Number(s: string): Option<Time> {
    var t := s[SpaceLength(s)..];
    var negative := t != "" && t[0] == '-';
    match Unsigned(if t != "" && (t[0] == '-' || t[0] == '+') then t[1..] else t)
    case None => None
    case Some(n) => Some(Clamp(if negative then 0 - n else n))
  }

  /** sscanf(line, "%127[^|]|%15[^|]|%lld"). */
  function ParseRequest(line: string): Option<Request> {
    var k := UpTo(line, BAR);
    if k == 0 || k > NAME_LENGTH || k == |line| then None
    else
      var rest := line[k + 1..];
      var m := UpTo(rest, BAR);
      if m == 0 || m > MODE_LENGTH || m == |rest| then None
      else
        match Number(rest[m + 1..])
        case None => None
        case Some(at) => Some(Request(line[..k], rest[..m] == "write", at))
  }

  /** Lines that do not parse are skipped. */
  function Load(text: string): seq<Request>
    decreases |text|
  {
    if text == "" then []
    else
      var r := ParseRequest(text[..LineLength(text)]);
      (if r.Some? then [r.value] else []) + Load(text[LineLength(text)..])
  }

  method LoadRequests(text: string) returns (rs: seq<Request>)
    ensures rs == Load(text)
  {
    rs := [];
    var rest := text;
    while rest != ""
      invariant rs + Load(rest) == Load(text)
      decreases |rest|
    {
      ghost var more := NextLine(rs, rest);
      var n := LineLength(rest);
      var r := ParseRequest(rest[..n]);
      if r.Some? {
        rs := rs + [r.value];
      }
      rest := rest[n..];
    }
  }

  lemma {:induction false} NextLine(rs: seq<Request>, text: string) returns (more: seq<Request>)
    requires text != ""
    ensures more == Load(text[LineLength(text)..])
    ensures var r := ParseRequest(text[..LineLength(text)]);
            rs + Load(text) == (if r.Some? then rs + [r.value] else rs) + more
  {
    more := Load(text[LineLength(text)..]);
    var r := ParseRequest(text[..LineLength(text)]);
    assert rs + ((if r.Some? then [r.value] else []) + more) == (if r.Some? then rs + [r.value] else rs) + more;
  }

  // ----- numbers survive

  lemma {:induction false} DigitsRead(n: nat)
    ensures var s := Digits(n);
            s != "" && (forall k :: 0 <= k < |s| ==> IsDigit(s[k])) && Value(s) == n
  {
    var s := Digits(n);
    if n < 10 {
      assert s[..0] == "";
    } else {
      DigitsRead(n / 10);
      assert s[..|s| - 1] == Digits(n / 10);
    }
  }

  function Power(k: nat): nat {
    if k == 0 then 1 else 10 * Power(k - 1)
  }

  lemma {:induction false} PowerSum(a: nat, b: nat)
    ensures Power(a + b) == Power(a) * Power(b)
  {
    if a > 0 {
      PowerSum(a - 1, b);
    }
  }

  lemma {:induction false} DigitsShort(n: nat, k: nat)
    requires n < Power(k) && k > 0
    ensures |Digits(n)| <= k
    decreases k
  {
    if n >= 10 {
      DigitsShort(n / 10, k - 1);
    }
  }

  lemma {:induction false} UnsignedIs(n: nat, rest: string) returns (digits: string)
    requires rest != "" ==> !IsDigit(rest[0])
    ensures digits == Digits(n) + rest && digits != "" && IsDigit(digits[0]) && Unsigned(digits) == Some(n)
  {
    DigitsRead(n);
    digits := Digits(n) + rest;
    assert digits[..|Digits(n)|] == Digits(n);
  }

  lemma {:induction false} SignedIs(s: string, negative: bool, digits: string, n: nat)
    requires s == (if negative then "-" + digits else digits)
    requires digits != "" && IsDigit(digits[0]) && Unsigned(digits) == Some(n)
    ensures Number(s) == Some(Clamp(if negative then 0 - n else n))
  {
    assert SpaceLength(s) == 0 && s[0..] == s;
    assert negative ==> s[1..] == digits;
  }

  /** A printed time is read back, whatever follows it. */
  lemma {:induction false} NumberIs(t: Time, rest: string)
    requires rest != "" ==> !IsDigit(rest[0])
    ensures Number(Decimal(t) + rest) == Some(t)
  {
    var n: nat := if t < 0 then 0 - t else t;
    var digits := UnsignedIs(n, rest);
    if t < 0 {
      assert Decimal(t) + rest == "-" + digits;
    }
    SignedIs(Decimal(t) + rest, t < 0, digits, n);
  }

  // ----- the round trip

  /** Names the format can carry. */
  predicate Keepable(user: string) {
    0 < |user| <= NAME_LENGTH && BAR !in user && '\n' !in user
  }

  predicate AllKeepable(rs: seq<Request>) {
    forall r :: r in rs ==> Keepable(r.user)
  }

  lemma {:induction false} ParseFields(user: string, mode: string, x: string)
    requires 0 < |user| <= NAME_LENGTH && BAR !in user && 0 < |mode| <= MODE_LENGTH && BAR !in mode
    ensures var n := Number(x);
            ParseRequest(user + [BAR] + (mode + [BAR] + x))
            == if n.Some? then Some(Request(user, mode == "write", n.value)) else None
  {
    FirstField(user, BAR, mode + [BAR] + x);
    FirstField(mode, BAR, x);
  }

  lemma {:induction false} ShortTime(t: Time)
    ensures |Decimal(t)| <= 20 && '\n' !in Decimal(t)
  {
    var n: nat := if t < 0 then 0 - t else t;
    assert Power(3) == 1000;
    PowerSum(3, 3);
    PowerSum(6, 6);
    PowerSum(12, 6);
    DigitsShort(n, 19);
    DigitsRead(n);
  }

  /** A line of the file, for any name that leaves it within the line buffer. */
  lemma {:induction false} LoadLine(r: Request, rest: string)
    requires |r.user| <= NAME_LENGTH && '\n' !in r.user
    ensures var p := ParseRequest(Fields(r) + "\n");
            Load(Fields(r) + "\n" + rest) == (if p.Some? then [p.value] else []) + Load(rest)
  {
    ShortTime(r.at);
    FirstLine(Fields(r), rest);
  }

  lemma {:induction false} ParseOwn(r: Request)
    requires Keepable(r.user)
    ensures ParseRequest(Fields(r) + "\n") == Some(r)
  {
    var x := Decimal(r.at) + "\n";
    assert Fields(r) + "\n" == r.user + [BAR] + (Mode(r.write) + [BAR] + x);
    ParseFields(r.user, Mode(r.write), x);
    NumberIs(r.at, "\n");
  }

  /** Whatever the file holds, only keepable names are loaded. */
  lemma {:induction false} LoadedKeepable(text: string)
    ensures AllKeepable(Load(text))
    decreases |text|
  {
    if text != "" {
      LoadedKeepable(text[LineLength(text)..]);
    }
  }

  lemma {:induction false} RoundTrip(rs: seq<Request>)
    requires AllKeepable(rs)
    ensures Load(Save(rs)) == rs
  {
    if rs != [] {
      assert rs[0] in rs && forall r :: r in rs[1..] ==> r in rs;
      RoundTrip(rs[1..]);
      LoadOwn(rs[0], Save(rs[1..]));
    }
  }

  lemma {:induction false} LoadOwn(r: Request, rest: string)
    requires Keepable(r.user)
    ensures Load(Fields(r) + "\n" + rest) == [r] + Load(rest)
  {
    LoadLine(r, rest);
    ParseOwn(r);
  }

  /** Saving and loading gives the requests back if and only if every name is keepable. */
  lemma {:induction false} RoundTripExactly(rs: seq<Request>)
    ensures Load(Save(rs)) == rs <==> AllKeepable(rs)
  {
    LoadedKeepable(Save(rs));
    if AllKeepable(rs) {
      RoundTrip(rs);
    }
  }

  /** A name that reads as another user's request. */
  function Forging(victim: string, t: Time): string {
    victim + [BAR] + ("write" + [BAR] + Decimal(t))
  }

  /** A read request of "bob|write|5" is loaded as a write request of "bob". */
  lemma {:induction false} ForgedLine(victim: string, t: Time, r: Request, rest: string)
    requires Keepable(victim) && r.user == Forging(victim, t) && |r.user| <= NAME_LENGTH
    ensures Load(Fields(r) + "\n" + rest) == [Request(victim, true, t)] + Load(rest)
  {
    ShortTime(t);
    LoadLine(r, rest);
    ParseForged(victim, t, r);
  }

  lemma {:induction false} ParseForged(victim: string, t: Time, r: Request)
    requires Keepable(victim) && r.user == Forging(victim, t)
    ensures ParseRequest(Fields(r) + "\n") == Some(Request(victim, true, t))
  {
    var behind := [BAR] + (Mode(r.write) + [BAR] + Decimal(r.at)) + "\n";
    Unfold(victim, Decimal(t), Mode(r.write) + [BAR] + Decimal(r.at));
    ParseFields(victim, "write", Decimal(t) + behind);
    NumberIs(t, behind);
  }

  lemma {:induction false} Unfold(victim: string, at: string, more: string)
    ensures victim + [BAR] + ("write" + [BAR] + at) + [BAR] + more + "\n"
         == victim + [BAR] + ("write" + [BAR] + (at + ([BAR] + more + "\n")))
  {
  }
}
