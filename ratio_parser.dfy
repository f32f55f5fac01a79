/** Parsing of the governance ratio strings: "cn/kgf/kir" (three parts) and the
    KIP-82 "proposer/stakers" sub-split (two parts). A string is split on '/'
    like Go's strings.Split, and every part is read like Go's strconv.Atoi. */
module RatioParser {
  import opened Common

  const Sep: char := '/'
  /** The part counts the chain parameters fix for the two ratio strings. */
  const RewardSliceCount: nat := 3
  const RewardKip82SliceCount: nat := 2

  datatype RatioError = InvalidFormat | ParsingRatio

  datatype Result<T> = Ok(value: T) | Err(error: RatioError)

  datatype RewardRatio = RewardRatio(cn: int, kgf: int, kir: int, total: int)

  datatype Kip82Ratio = Kip82Ratio(proposer: int, stakers: int, total: int)

  // ---------------------------------------------------------------- splitting

  /** The position of the first `c` in `s`. */
  function IndexOf(s: string, c: char): (i: nat)
    requires c in s
    ensures i < |s| && s[i] == c && c !in s[..i]
  {
    if s[0] == c then 0 else 1 + IndexOf(s[1..], c)
  }

  /** The substrings of `s` between the separators: one more part than there are separators. */
  function Split(s: string): (parts: seq<string>)
    ensures |parts| >= 1
    decreases |s|
  {
    if Sep !in s then [s]
    else
      var i := IndexOf(s, Sep);
      [s[..i]] + Split(s[i + 1..])
  }

  /** The parts put back together with the separator between them. */
  function Join(parts: seq<string>): string
    requires |parts| >= 1
  {
    if |parts| == 1 then parts[0] else parts[0] + [Sep] + Join(parts[1..])
  }

  function Count(s: string, c: char): nat {
    if s == [] then 0 else (if s[0] == c then 1 else 0) + Count(s[1..], c)
  }

  lemma {:induction false} CountAppend(a: string, b: string, c: char)
    ensures Count(a + b, c) == Count(a, c) + Count(b, c)
  {
    if a == [] {
      assert a + b == b;
    } else {
      assert (a + b)[0] == a[0] && (a + b)[1..] == a[1..] + b;
      CountAppend(a[1..], b, c);
    }
  }

  lemma {:induction false} CountAbsent(s: string, c: char)
    ensures c !in s <==> Count(s, c) == 0
  {
    if s != [] {
      CountAbsent(s[1..], c);
      assert c in s <==> s[0] == c || c in s[1..];
    }
  }

  /** The count of separators in a string cut at its first separator. */
  lemma {:induction false} CountAtFirst(s: string, i: nat)
    requires i < |s| && s[i] == Sep && Sep !in s[..i]
    ensures Count(s, Sep) == Count(s[i + 1..], Sep) + 1
  {
    assert s == s[..i] + [Sep] + s[i + 1..];
    CountAppend(s[..i] + [Sep], s[i + 1..], Sep);
    CountAppend(s[..i], [Sep], Sep);
    CountAbsent(s[..i], Sep);
    assert Count([Sep], Sep) == 1 by { assert [Sep][1..] == []; }
  }

  /** Splitting yields exactly one part more than the string has separators. */
  lemma {:induction false} SplitCount(s: string)
    ensures |Split(s)| == Count(s, Sep) + 1
    decreases |s|
  {
    if Sep !in s {
      CountAbsent(s, Sep);
    } else {
      var i := IndexOf(s, Sep);
      SplitCount(s[i + 1..]);
      CountAtFirst(s, i);
    }
  }

  /** No part of a split contains a separator. */
  lemma {:induction false} SplitNoSep(s: string)
    ensures forall k :: 0 <= k < |Split(s)| ==> Sep !in Split(s)[k]
    decreases |s|
  {
    if Sep in s {
      var i := IndexOf(s, Sep);
      var rest := s[i + 1..];
      SplitNoSep(rest);
      assert Split(s) == [s[..i]] + Split(rest);
      forall k | 0 <= k < |Split(s)|
        ensures Sep !in Split(s)[k]
      {
        if k > 0 { assert Split(s)[k] == Split(rest)[k - 1]; }
      }
    }
  }

  /** Joining the parts of a split gives back the string. */
  lemma {:induction false} JoinSplit(s: string)
    ensures Join(Split(s)) == s
    decreases |s|
  {
    if Sep in s {
      var i := IndexOf(s, Sep);
      JoinSplit(s[i + 1..]);
      assert s == s[..i] + [Sep] + s[i + 1..];
    }
  }

  /** Splitting a join of separator-free parts gives back the parts. */
  lemma {:induction false} SplitJoin(parts: seq<string>)
    requires |parts| >= 1
    requires forall k :: 0 <= k < |parts| ==> Sep !in parts[k]
    ensures Split(Join(parts)) == parts
  {
    if |parts| > 1 {
      var p, rest := parts[0], Join(parts[1..]);
      assert Join(parts) == p + [Sep] + rest;
      var joined := p + [Sep] + rest;
      IndexOfAfter(p, rest);
      assert joined[..|p|] == p && joined[|p| + 1..] == rest;
      assert Split(joined) == [p] + Split(rest);
      SplitJoin(parts[1..]);
      assert parts == [p] + parts[1..];
    }
  }

  /** In a separator-free part followed by a separator, that separator is the first. */
  lemma {:induction false} IndexOfAfter(p: string, rest: string)
    requires Sep !in p
    ensures Sep in p + [Sep] + rest
    ensures IndexOf(p + [Sep] + rest, Sep) == |p|
  {
    var s := p + [Sep] + rest;
    assert s[|p|] == Sep;
    if p != [] {
      assert s[0] == p[0] && s[1..] == p[1..] + [Sep] + rest;
      IndexOfAfter(p[1..], rest);
    }
  }

  // ---------------------------------------------------------------- integers

  predicate IsDigit(c: char) {
    '0' <= c <= '9'
  }

  predicate AllDigits(s: string) {
    forall k :: 0 <= k < |s| ==> IsDigit(s[k])
  }

  /** The value of a string of decimal digits, read left to right. */
  function DigitsValue(s: string): nat
    requires AllDigits(s)
  {
    if s == [] then 0
    else DigitsValue(s[..|s| - 1]) * 10 + (s[|s| - 1] as int - '0' as int)
  }

  /** Go's strconv.Atoi: an optional sign followed by one or more decimal digits. */
  function Atoi(s: string): Option<int> {
    if |s| > 0 && (s[0] == '+' || s[0] == '-') then
      if |s| > 1 && AllDigits(s[1..]) then
        Some(if s[0] == '-' then -(DigitsValue(s[1..]) as int) else DigitsValue(s[1..]))
      else None
    else if |s| > 0 && AllDigits(s) then Some(DigitsValue(s))
    else None
  }

  /** The decimal digits of `n`, without leading zeros. */
  function NatDigits(n: nat): (s: string)
    ensures |s| >= 1 && AllDigits(s)
  {
    if n < 10 then ['0' + n as char]
    else NatDigits(n / 10) + ['0' + (n % 10) as char]
  }

  /** Go's strconv.Itoa. */
  function Itoa(n: int): string {
    if n < 0 then "-" + NatDigits(-n) else NatDigits(n)
  }

  lemma {:induction false} NatDigitsValue(n: nat)
    ensures DigitsValue(NatDigits(n)) == n
  {
    if n >= 10 {
      var s := NatDigits(n);
      assert s[..|s| - 1] == NatDigits(n / 10);
      NatDigitsValue(n / 10);
    }
  }

  /** Reading back the decimal form of any integer gives the integer. */
  lemma AtoiItoa(n: int)
    ensures Atoi(Itoa(n)) == Some(n)
    ensures Sep !in Itoa(n)
  {
    var d := NatDigits(if n < 0 then -n else n);
    NatDigitsValue(if n < 0 then -n else n);
    if n < 0 {
      assert Itoa(n)[1..] == d;
    }
  }

  // ---------------------------------------------------------------- ratios

  /** parseRewardRatio: exactly three parts, each an integer; the total is their sum. */
  function ParseRewardRatio(ratio: string): (r: Result<RewardRatio>)
    ensures r == Err(InvalidFormat) <==> |Split(ratio)| != RewardSliceCount
    ensures r.Ok? ==> r.value.total == r.value.cn + r.value.kgf + r.value.kir
  {
    var s := Split(ratio);
    if |s| != RewardSliceCount then Err(InvalidFormat)
    else
      var cn, poc, kir := Atoi(s[0]), Atoi(s[1]), Atoi(s[2]);
      if cn.None? || poc.None? || kir.None? then Err(ParsingRatio)
      else Ok(RewardRatio(cn.value, poc.value, kir.value, cn.value + poc.value + kir.value))
  }

  /** parseRewardKip82Ratio: exactly two parts, each an integer; the total is their sum. */
  function ParseRewardKip82Ratio(ratio: string): (r: Result<Kip82Ratio>)
    ensures r == Err(InvalidFormat) <==> |Split(ratio)| != RewardKip82SliceCount
    ensures r.Ok? ==> r.value.total == r.value.proposer + r.value.stakers
  {
    var s := Split(ratio);
    if |s| != RewardKip82SliceCount then Err(InvalidFormat)
    else
      var basic, stake := Atoi(s[0]), Atoi(s[1]);
      if basic.None? || stake.None? then Err(ParsingRatio)
      else Ok(Kip82Ratio(basic.value, stake.value, basic.value + stake.value))
  }

  /** The ratio string has the wrong arity exactly when it does not hold two separators. */
  lemma RewardRatioFormat(ratio: string)
    ensures ParseRewardRatio(ratio) == Err(InvalidFormat) <==> Count(ratio, Sep) != 2
  {
    SplitCount(ratio);
  }

  /** The KIP-82 string has the wrong arity exactly when it does not hold one separator. */
  lemma Kip82RatioFormat(ratio: string)
    ensures ParseRewardKip82Ratio(ratio) == Err(InvalidFormat) <==> Count(ratio, Sep) != 1
  {
    SplitCount(ratio);
  }

  /** Three separator-free parts joined by separators split back into those parts. */
  lemma SplitThree(a: string, b: string, c: string)
    requires Sep !in a && Sep !in b && Sep !in c
    ensures Split(a + [Sep] + b + [Sep] + c) == [a, b, c]
  {
    var parts := [a, b, c];
    assert Join(parts[2..]) == c;
    assert Join(parts[1..]) == b + [Sep] + c by { assert parts[1..][1..] == parts[2..]; }
    assert Join(parts) == a + [Sep] + b + [Sep] + c;
    SplitJoin(parts);
  }

  /** Two separator-free parts joined by a separator split back into those parts. */
  lemma SplitTwo(a: string, b: string)
    requires Sep !in a && Sep !in b
    ensures Split(a + [Sep] + b) == [a, b]
  {
    var parts := [a, b];
    assert Join(parts) == a + [Sep] + b;
    SplitJoin(parts);
  }

  /** Three integer parts joined by separators parse to those integers and their sum. */
  lemma ParseThreeParts(a: string, b: string, c: string)
    requires Sep !in a && Sep !in b && Sep !in c
    requires Atoi(a).Some? && Atoi(b).Some? && Atoi(c).Some?
    ensures var x, y, z := Atoi(a).value, Atoi(b).value, Atoi(c).value;
      ParseRewardRatio(a + [Sep] + b + [Sep] + c) == Ok(RewardRatio(x, y, z, x + y + z))
  {
    SplitThree(a, b, c);
    var parts := Split(a + [Sep] + b + [Sep] + c);
    assert |parts| == RewardSliceCount && parts[0] == a && parts[1] == b && parts[2] == c;
  }

  /** Two integer parts joined by a separator parse to those integers and their sum. */
  lemma ParseTwoParts(a: string, b: string)
    requires Sep !in a && Sep !in b
    requires Atoi(a).Some? && Atoi(b).Some?
    ensures var x, y := Atoi(a).value, Atoi(b).value;
      ParseRewardKip82Ratio(a + [Sep] + b) == Ok(Kip82Ratio(x, y, x + y))
  {
    SplitTwo(a, b);
    var parts := Split(a + [Sep] + b);
    assert |parts| == RewardKip82SliceCount && parts[0] == a && parts[1] == b;
  }

  /** Parsing "cn/kgf/kir" written in decimal gives back the three parts and their sum. */
  lemma RewardRatioRoundTrip(cn: int, kgf: int, kir: int)
    ensures ParseRewardRatio(Itoa(cn) + "/" + Itoa(kgf) + "/" + Itoa(kir))
         == Ok(RewardRatio(cn, kgf, kir, cn + kgf + kir))
  {
    var a, b, c := Itoa(cn), Itoa(kgf), Itoa(kir);
    AtoiItoa(cn); AtoiItoa(kgf); AtoiItoa(kir);
    ParseThreeParts(a, b, c);
    assert a + "/" + b + "/" + c == a + [Sep] + b + [Sep] + c;
  }

  /** Parsing "proposer/stakers" written in decimal gives back the two parts and their sum. */
  lemma Kip82RatioRoundTrip(proposer: int, stakers: int)
    ensures ParseRewardKip82Ratio(Itoa(proposer) + "/" + Itoa(stakers))
         == Ok(Kip82Ratio(proposer, stakers, proposer + stakers))
  {
    var a, b := Itoa(proposer), Itoa(stakers);
    AtoiItoa(proposer); AtoiItoa(stakers);
    ParseTwoParts(a, b);
    assert a + "/" + b == a + [Sep] + b;
  }

  /** A part that is not an integer makes a three-part string fail with ParsingRatio. */
  lemma RewardRatioBadPart(ratio: string, k: nat)
    requires k < |Split(ratio)| == RewardSliceCount
    requires Atoi(Split(ratio)[k]).None?
    ensures ParseRewardRatio(ratio) == Err(ParsingRatio)
  {
  }

  /** A part that is not an integer makes a two-part string fail with ParsingRatio. */
  lemma Kip82RatioBadPart(ratio: string, k: nat)
    requires k < |Split(ratio)| == RewardKip82SliceCount
    requires Atoi(Split(ratio)[k]).None?
    ensures ParseRewardKip82Ratio(ratio) == Err(ParsingRatio)
  {
  }

  /** The CN/KGF/KIR ratio fails with ParsingRatio exactly when it has three parts and
      one of them is not an integer. */
  lemma RewardRatioParsingError(ratio: string)
    ensures ParseRewardRatio(ratio) == Err(ParsingRatio) <==>
      |Split(ratio)| == RewardSliceCount
      && exists k :: 0 <= k < RewardSliceCount && Atoi(Split(ratio)[k]).None?
  {
    var s := Split(ratio);
    if |s| == RewardSliceCount && (Atoi(s[0]).None? || Atoi(s[1]).None? || Atoi(s[2]).None?) {
      var k := if Atoi(s[0]).None? then 0 else if Atoi(s[1]).None? then 1 else 2;
      assert Atoi(s[k]).None?;
    }
  }

  /** The KIP-82 ratio fails with ParsingRatio exactly when it has two parts and one of
      them is not an integer. */
  lemma Kip82RatioParsingError(ratio: string)
    ensures ParseRewardKip82Ratio(ratio) == Err(ParsingRatio) <==>
      |Split(ratio)| == RewardKip82SliceCount
      && exists k :: 0 <= k < RewardKip82SliceCount && Atoi(Split(ratio)[k]).None?
  {
    var s := Split(ratio);
    if |s| == RewardKip82SliceCount && (Atoi(s[0]).None? || Atoi(s[1]).None?) {
      var k := if Atoi(s[0]).None? then 0 else 1;
      assert Atoi(s[k]).None?;
    }
  }

  /** A ratio the split functions can divide by: it parses and its total is not zero
      (otherwise the division panics). */
  predicate UsableRatio(ratio: string) {
    var r := ParseRewardRatio(ratio); r.Ok? && r.value.total != 0
  }

  predicate UsableKip82Ratio(ratio: string) {
    var r := ParseRewardKip82Ratio(ratio); r.Ok? && r.value.total != 0
  }

  /** A ratio as governance intends it: non-negative parts and a positive total. */
  predicate WellFormedRatio(ratio: string) {
    var r := ParseRewardRatio(ratio);
    r.Ok? && r.value.cn >= 0 && r.value.kgf >= 0 && r.value.kir >= 0 && r.value.total > 0
  }

  predicate WellFormedKip82Ratio(ratio: string) {
    var r := ParseRewardKip82Ratio(ratio);
    r.Ok? && r.value.proposer >= 0 && r.value.stakers >= 0 && r.value.total > 0
  }
}
