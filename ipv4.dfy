/** IPv4 addresses as Rust's standard library reads and writes them in
    dotted-decimal form: `"a.b.c.d".parse::<IpAddr>()` and `to_string()`.
    The reader takes exactly four dot-separated numbers, each of one to three
    digits, no leading zero, at most 255. */
module Ipv4 {
  import opened Wrappers
  import Decimal

  type Octet = n: nat | n <= Decimal.U8Max

  datatype Addr = Addr(a: Octet, b: Octet, c: Octet, d: Octet)

  /** `s` cut at every '.', keeping empty pieces (like `str::split('.')`). */
  function Split(s: string): (parts: seq<string>)
    ensures |parts| >= 1
    ensures forall i :: 0 <= i < |parts| ==> '.' !in parts[i]
  {
    if s == [] then [[]]
    else
      var rest := Split(s[1..]);
      if s[0] == '.' then [[]] + rest
      else [[s[0]] + rest[0]] + rest[1..]
  }

  /** One octet field: `read_number` with radix 10, at most three digits,
      no zero prefix, checked against `u8`. */
  function ParseOctet(s: string): (r: Option<Octet>)
  {
    if 1 <= |s| <= 3 && Decimal.Canonical(s) && Decimal.Value(s) <= Decimal.U8Max
    then Some(Decimal.Value(s))
    else None
  }

  /** `str::parse::<Ipv4Addr>()`; `None` stands for `AddrParseError`. */
  function Parse(s: string): (r: Option<Addr>)
  {
    var parts := Split(s);
    if |parts| != 4 then None
    else
      match (ParseOctet(parts[0]), ParseOctet(parts[1]), ParseOctet(parts[2]), ParseOctet(parts[3]))
      case (Some(a), Some(b), Some(c), Some(d)) => Some(Addr(a, b, c, d))
      case _ => None
  }

  /** `Display` of an IPv4 address. */
  function Show(ip: Addr): string
  {
    Decimal.Show(ip.a) + "." + Decimal.Show(ip.b) + "." + Decimal.Show(ip.c) + "." + Decimal.Show(ip.d)
  }

  /** Pieces glued back together with '.', the inverse of `Split`. */
  function JoinDots(parts: seq<string>): string
    requires |parts| >= 1
  {
    if |parts| == 1 then parts[0] else parts[0] + "." + JoinDots(parts[1..])
  }

  lemma {:induction false} SplitJoin(s: string)
    ensures JoinDots(Split(s)) == s
  {
    if s != [] {
      SplitJoin(s[1..]);
      var rest := Split(s[1..]);
      if s[0] != '.' {
        if |rest| > 1 {
          assert rest == [rest[0]] + rest[1..];
          assert JoinDots(rest) == rest[0] + "." + JoinDots(rest[1..]);
        }
      }
    }
  }

  lemma {:induction false} SplitNoDot(x: string)
    requires '.' !in x
    ensures Split(x) == [x]
  {
    if x != [] {
      SplitNoDot(x[1..]);
      assert [x[0]] + x[1..] == x;
    }
  }

  lemma {:induction false} SplitAtDot(x: string, rest: string)
    requires '.' !in x
    ensures Split(x + "." + rest) == [x] + Split(rest)
  {
    var s := x + "." + rest;
    if x == [] {
      assert s[1..] == rest;
    } else {
      assert s[1..] == x[1..] + "." + rest;
      SplitAtDot(x[1..], rest);
      assert [x[0]] + x[1..] == x;
    }
  }

  /** `Split` undoes `JoinDots` when no piece holds a dot. */
  lemma {:induction false} SplitJoinDots(parts: seq<string>)
    requires |parts| >= 1
    requires forall i :: 0 <= i < |parts| ==> '.' !in parts[i]
    ensures Split(JoinDots(parts)) == parts
  {
    if |parts| == 1 {
      SplitNoDot(parts[0]);
    } else {
      SplitJoinDots(parts[1..]);
      SplitAtDot(parts[0], JoinDots(parts[1..]));
    }
  }

  lemma JoinFourNested(parts: seq<string>)
    requires |parts| == 4
    ensures JoinDots(parts) == parts[0] + "." + (parts[1] + "." + (parts[2] + "." + parts[3]))
  {
    assert parts[1..][1..] == parts[2..];
    assert parts[2..][1..] == parts[3..];
    assert JoinDots(parts[3..]) == parts[3];
    assert JoinDots(parts[2..]) == parts[2] + "." + parts[3];
  }

  lemma JoinFour(parts: seq<string>)
    requires |parts| == 4
    ensures JoinDots(parts) == parts[0] + "." + parts[1] + "." + parts[2] + "." + parts[3]
  {
    JoinFourNested(parts);
    var r2 := parts[2] + "." + parts[3];
    assert parts[0] + "." + (parts[1] + "." + r2) == parts[0] + "." + parts[1] + "." + r2;
    assert parts[0] + "." + parts[1] + "." + (parts[2] + "." + parts[3])
        == parts[0] + "." + parts[1] + "." + parts[2] + "." + parts[3];
  }

  lemma ShowOctet(n: Octet)
    ensures ParseOctet(Decimal.Show(n)) == Some(n)
    ensures '.' !in Decimal.Show(n)
  {
    Decimal.ShowShort(n);
  }

  /** Reading back printed text gives the same address. */
  lemma ParseShow(ip: Addr)
    ensures Parse(Show(ip)) == Some(ip)
  {
    var parts := [Decimal.Show(ip.a), Decimal.Show(ip.b), Decimal.Show(ip.c), Decimal.Show(ip.d)];
    ShowOctet(ip.a); ShowOctet(ip.b); ShowOctet(ip.c); ShowOctet(ip.d);
    JoinFour(parts);
    SplitJoinDots(parts);
    assert Split(Show(ip)) == parts;
  }

  /** Every text the reader accepts is exactly the printed form of its
      result: there is one spelling per address. */
  lemma ShowParse(s: string)
    requires Parse(s).Some?
    ensures Show(Parse(s).value) == s
  {
    var parts := Split(s);
    var ip := Parse(s).value;
    SplitJoin(s);
    JoinFour(parts);
    assert ParseOctet(parts[0]) == Some(ip.a) && ParseOctet(parts[1]) == Some(ip.b);
    assert ParseOctet(parts[2]) == Some(ip.c) && ParseOctet(parts[3]) == Some(ip.d);
    Decimal.ShowValue(parts[0]);
    Decimal.ShowValue(parts[1]);
    Decimal.ShowValue(parts[2]);
    Decimal.ShowValue(parts[3]);
  }
}
