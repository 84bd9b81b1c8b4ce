/**
 * The UID value type of common/fplog_transport.h: a (high, low) pair of
 * unsigned 64-bit numbers identifying a transport channel, compared
 * lexicographically, rendered as "high_low" and parsed back by from_string.
 */
module Uid {
  import opened Wrappers
  import opened Decimal

  /** std::numeric_limits<unsigned long long>::max(), the "not yet set" sentinel of from_string. */
  const ULLONG_MAX: nat := 0xFFFF_FFFF_FFFF_FFFF

  type u64 = x: int | 0 <= x < 0x1_0000_0000_0000_0000

  datatype UidValue = UidValue(high: u64, low: u64)

  /** The value of a freshly constructed UID. */
  const DEFAULT: UidValue := UidValue(0, 0)

  datatype UidError = InvalidUid

  /** operator==: both halves agree. */
  function Equal(a: UidValue, b: UidValue): (r: bool)
    ensures r <==> a == b
  {
    a.high == b.high && a.low == b.low
  }

  /** operator<, following its three early returns. */
  function Less(a: UidValue, b: UidValue): (r: bool)
    ensures r <==> a.high < b.high || (a.high == b.high && a.low < b.low)
  {
    if Equal(a, b) then false
    else if a.high < b.high then true
    else if a.high == b.high then a.low < b.low
    else false
  }

  /** operator< is a strict total order on UIDs. */
  lemma LessIsStrictTotalOrder(a: UidValue, b: UidValue, c: UidValue)
    ensures !Less(a, a)
    ensures Less(a, b) ==> !Less(b, a)
    ensures Less(a, b) && Less(b, c) ==> Less(a, c)
    ensures a != b ==> Less(a, b) || Less(b, a)
  {
  }

  /** to_string: decimal high, an underscore, decimal low. */
  function ToString(u: UidValue): (r: string)
    ensures forall i | 0 <= i < |r| :: r[i] == '_' <==> i == |Digits(u.high)|
  {
    Digits(u.high) + "_" + Digits(u.low)
  }

  // ---------------------------------------------------------------------------
  // boost::tokenizer with char_separator("_") and boost::lexical_cast
  // ---------------------------------------------------------------------------

  /** The length of the run of non-'_' characters that starts s. */
  function RunLength(s: string): (n: nat)
    ensures n <= |s| && (n < |s| ==> s[n] == '_')
    ensures forall i | 0 <= i < n :: s[i] != '_'
  {
    if s == [] || s[0] == '_' then 0 else 1 + RunLength(s[1..])
  }

  /** The tokens of s: its maximal non-empty runs without '_' (empty tokens are dropped). */
  function Tokens(s: string): seq<string>
    decreases |s|
  {
    if s == [] then []
    else if s[0] == '_' then Tokens(s[1..])
    else
      var n := RunLength(s);
      [s[..n]] + Tokens(s[n..])
  }

  /** lexical_cast<unsigned long long> of a token: its decimal value when that fits in 64 bits. */
  function LexicalCast(t: string): (r: Option<u64>)
    ensures r.Some? <==> t != [] && AllDigits(t) && ValueOf(t) <= ULLONG_MAX
    ensures r.Some? ==> r.value == ValueOf(t)
  {
    match ParseDecimal(t)
    case Some(v) => if v <= ULLONG_MAX then Some(v) else None
    case None => None
  }

  // ---------------------------------------------------------------------------
  // from_string
  // ---------------------------------------------------------------------------

  /** The fields after from_string's token loop, and whether it finished without throwing. */
  datatype Parsed = Parsed(high: u64, low: u64, ok: bool)

  /**
   * from_string's loop over the remaining tokens: a token goes to high while
   * high still holds the sentinel, otherwise to low while low holds it;
   * any further token, or a token lexical_cast rejects, throws Invalid_Uid.
   */
  function Absorb(toks: seq<string>, high: u64, low: u64): (p: Parsed)
    ensures p.ok ==> forall i | 0 <= i < |toks| :: LexicalCast(toks[i]).Some?
    decreases |toks|
  {
    if toks == [] then Parsed(high, low, true)
    else if high == ULLONG_MAX then
      match LexicalCast(toks[0])
      case None => Parsed(high, low, false)
      case Some(v) => Absorb(toks[1..], v, low)
    else if low == ULLONG_MAX then
      match LexicalCast(toks[0])
      case None => Parsed(high, low, false)
      case Some(v) => Absorb(toks[1..], high, v)
    else Parsed(high, low, false)
  }

  /** What from_string returns for str: the parsed UID, or Invalid_Uid. */
  function Parse(str: string): (r: Result<UidValue, UidError>)
    ensures r.Ok? ==> forall t | t in Tokens(str) :: LexicalCast(t).Some?
    ensures Tokens(str) == [] ==> r == Ok(UidValue(ULLONG_MAX, ULLONG_MAX))
  {
    var p := Absorb(Tokens(str), ULLONG_MAX, ULLONG_MAX);
    if p.ok then Ok(UidValue(p.high, p.low)) else Err(InvalidUid)
  }

  /** A UID object whose from_string overwrites its fields. */
  class Uid {
    var high: u64
    var low: u64

    constructor()
      ensures high == 0 && low == 0
    {
      high, low := 0, 0;
    }

    function Value(): UidValue
      reads this
    {
      UidValue(high, low)
    }

    /**
     * from_string: resets both fields to the sentinel, fills them from the
     * '_'-separated tokens and returns a copy of the result. When it throws,
     * the fields keep whatever the loop had assigned before the throw.
     */
    method FromString(str: string) returns (r: Result<UidValue, UidError>)
      modifies this
      ensures var p := Absorb(Tokens(str), ULLONG_MAX, ULLONG_MAX);
        high == p.high && low == p.low && r == (if p.ok then Ok(Value()) else Err(InvalidUid))
    {
      high := ULLONG_MAX;
      low := ULLONG_MAX;
      var toks := Tokens(str);
      var i := 0;
      while i < |toks|
        invariant 0 <= i <= |toks|
        invariant Absorb(toks[i..], high, low) == Absorb(toks, ULLONG_MAX, ULLONG_MAX)
      {
        assert toks[i..][1..] == toks[i + 1..];
        if high == ULLONG_MAX {
          var v := LexicalCast(toks[i]);
          if v.None? {
            return Err(InvalidUid);
          }
          high := v.value;
          i := i + 1;
          continue;
        }
        if low == ULLONG_MAX {
          var v := LexicalCast(toks[i]);
          if v.None? {
            return Err(InvalidUid);
          }
          low := v.value;
          i := i + 1;
          continue;
        }
        return Err(InvalidUid);
      }
      return Ok(Value());
    }
  }

  /** UID::Helper::from_string: from_string on a fresh UID, so no earlier state matters. */
  method HelperFromString(str: string) returns (r: Result<UidValue, UidError>)
    ensures r == Parse(str)
  {
    var uid := new Uid();
    r := uid.FromString(str);
  }

  // ---------------------------------------------------------------------------
  // Properties
  // ---------------------------------------------------------------------------

  lemma {:induction false} RunLengthOfJoin(a: string, b: string)
    requires forall i | 0 <= i < |a| :: a[i] != '_'
    ensures RunLength(a + "_" + b) == |a|
    decreases |a|
  {
    if a != [] {
      assert (a + "_" + b)[1..] == a[1..] + "_" + b;
      RunLengthOfJoin(a[1..], b);
    }
  }

  lemma NoUnderscoreTokens(b: string)
    requires b != [] && forall i | 0 <= i < |b| :: b[i] != '_'
    ensures Tokens(b) == [b]
  {
    assert RunLength(b) == |b|;
    assert b[..|b|] == b && b[|b|..] == [];
  }

  /** from_string's loop on two tokens that both parse. */
  lemma AbsorbTwo(a: string, b: string, h: u64, l: u64)
    requires LexicalCast(a) == Some(h) && LexicalCast(b) == Some(l)
    ensures h != ULLONG_MAX ==> Absorb([a, b], ULLONG_MAX, ULLONG_MAX) == Parsed(h, l, true)
    ensures h == ULLONG_MAX ==> Absorb([a, b], ULLONG_MAX, ULLONG_MAX) == Parsed(l, ULLONG_MAX, true)
    ensures AbsorbCounted([a, b], ULLONG_MAX, ULLONG_MAX, 0) == Parsed(h, l, true)
  {
    assert [a, b][1..] == [b] && [b][1..] == [];
    if h == ULLONG_MAX {
      assert Absorb([b], h, ULLONG_MAX) == Absorb([], l, ULLONG_MAX);
    } else {
      assert Absorb([b], h, ULLONG_MAX) == Absorb([], h, l);
    }
    assert AbsorbCounted([b], h, ULLONG_MAX, 1) == AbsorbCounted([], h, l, 2);
  }

  /** Two underscore-free, non-empty pieces joined by '_' tokenize back to the two pieces. */
  lemma TokensOfJoin(a: string, b: string)
    requires a != [] && forall i | 0 <= i < |a| :: a[i] != '_'
    requires b != [] && forall i | 0 <= i < |b| :: b[i] != '_'
    ensures Tokens(a + "_" + b) == [a, b]
  {
    var s := a + "_" + b;
    RunLengthOfJoin(a, b);
    assert s[..|a|] == a;
    assert s[|a|..][1..] == b;
    NoUnderscoreTokens(b);
  }

  lemma DigitsHaveNoUnderscore(n: nat)
    ensures forall i | 0 <= i < |Digits(n)| :: Digits(n)[i] != '_'
  {
  }

  /** The tokens of to_string(u) are the decimal renderings of high and low. */
  lemma TokensOfToString(u: UidValue)
    ensures Tokens(ToString(u)) == [Digits(u.high), Digits(u.low)]
    ensures LexicalCast(Digits(u.high)) == Some(u.high) && LexicalCast(Digits(u.low)) == Some(u.low)
  {
    DigitsHaveNoUnderscore(u.high);
    DigitsHaveNoUnderscore(u.low);
    TokensOfJoin(Digits(u.high), Digits(u.low));
    ParseDigits(u.high);
    ParseDigits(u.low);
  }

  /** from_string(to_string(u)) gives u back whenever high is not the sentinel value. */
  lemma ParseToString(u: UidValue)
    requires u.high != ULLONG_MAX
    ensures Parse(ToString(u)) == Ok(u)
  {
    TokensOfToString(u);
    AbsorbTwo(Digits(u.high), Digits(u.low), u.high, u.low);
  }

  /**
   * When high is the sentinel value, from_string keeps treating high as
   * unset, so the low token overwrites high and low is left at the sentinel.
   */
  lemma ParseToStringSentinelHigh(u: UidValue)
    requires u.high == ULLONG_MAX
    ensures Parse(ToString(u)) == Ok(UidValue(u.low, ULLONG_MAX))
    ensures u.low != ULLONG_MAX ==> Parse(ToString(u)) != Ok(u)
  {
    TokensOfToString(u);
    AbsorbTwo(Digits(u.high), Digits(u.low), u.high, u.low);
  }

  /** A counterexample to the round trip: to_string of (ULLONG_MAX, 5) parses as (5, ULLONG_MAX). */
  lemma SentinelRoundTripFails()
    ensures Parse(ToString(UidValue(ULLONG_MAX, 5))) == Ok(UidValue(5, ULLONG_MAX))
  {
    ParseToStringSentinelHigh(UidValue(ULLONG_MAX, 5));
  }

  /** An empty string, or one made only of '_', leaves both fields at the sentinel. */
  lemma {:induction false} ParseNoTokens(s: string)
    requires forall i | 0 <= i < |s| :: s[i] == '_'
    ensures Tokens(s) == [] && Parse(s) == Ok(UidValue(ULLONG_MAX, ULLONG_MAX))
    decreases |s|
  {
    if s != [] {
      ParseNoTokens(s[1..]);
    }
  }

  /** A single token sets high and leaves low at the sentinel. */
  lemma ParseOneToken(n: u64)
    ensures Parse(Digits(n)) == Ok(UidValue(n, ULLONG_MAX))
  {
    var d := Digits(n);
    NoUnderscoreTokens(d);
    ParseDigits(n);
    assert LexicalCast(d) == Some(n);
    assert [d][1..] == [];
    assert Absorb([d], ULLONG_MAX, ULLONG_MAX) == Absorb([], n, ULLONG_MAX);
  }

  /** A third token after two ordinary ones makes from_string throw Invalid_Uid. */
  lemma ThirdTokenRejected(toks: seq<string>, h: u64, l: u64)
    requires |toks| >= 3
    requires LexicalCast(toks[0]) == Some(h) && LexicalCast(toks[1]) == Some(l)
    requires h != ULLONG_MAX && l != ULLONG_MAX
    ensures !Absorb(toks, ULLONG_MAX, ULLONG_MAX).ok
  {
    var t := toks[1..];
    assert t[0] == toks[1] && t[1..] == toks[2..] && toks[2..] != [];
    assert Absorb(t[1..], h, l) == Parsed(h, l, false);
    assert Absorb(t, h, ULLONG_MAX) == Parsed(h, l, false);
  }

  /** A token lexical_cast rejects makes from_string throw Invalid_Uid while a field is still unset. */
  lemma BadTokenRejected(toks: seq<string>)
    requires toks != [] && LexicalCast(toks[0]).None?
    ensures !Absorb(toks, ULLONG_MAX, ULLONG_MAX).ok
  {
  }

  // ---------------------------------------------------------------------------
  // A from_string that counts tokens instead of testing the sentinel
  // ---------------------------------------------------------------------------

  /** The first token goes to high, the second to low, a third is rejected. */
  function AbsorbCounted(toks: seq<string>, high: u64, low: u64, count: nat): (p: Parsed)
    decreases |toks|
  {
    if toks == [] then Parsed(high, low, true)
    else if count >= 2 then Parsed(high, low, false)
    else
      match LexicalCast(toks[0])
      case None => Parsed(high, low, false)
      case Some(v) =>
        if count == 0 then AbsorbCounted(toks[1..], v, low, 1)
        else AbsorbCounted(toks[1..], high, v, 2)
  }

  function ParseCounted(str: string): Result<UidValue, UidError> {
    var p := AbsorbCounted(Tokens(str), ULLONG_MAX, ULLONG_MAX, 0);
    if p.ok then Ok(UidValue(p.high, p.low)) else Err(InvalidUid)
  }

  /** With the token count as the test, every UID survives to_string and back. */
  lemma ParseCountedToString(u: UidValue)
    ensures ParseCounted(ToString(u)) == Ok(u)
  {
    TokensOfToString(u);
    AbsorbTwo(Digits(u.high), Digits(u.low), u.high, u.low);
  }

  /** Both versions agree on every string whose first token is not the sentinel's rendering. */
  lemma ParseCountedAgrees(toks: seq<string>)
    requires |toks| >= 1 ==> LexicalCast(toks[0]) != Some(ULLONG_MAX)
    requires |toks| >= 2 ==> LexicalCast(toks[1]) != Some(ULLONG_MAX)
    ensures AbsorbCounted(toks, ULLONG_MAX, ULLONG_MAX, 0) == Absorb(toks, ULLONG_MAX, ULLONG_MAX)
  {
    if toks != [] && LexicalCast(toks[0]).Some? {
      var h := LexicalCast(toks[0]).value;
      var t := toks[1..];
      assert Absorb(toks, ULLONG_MAX, ULLONG_MAX) == Absorb(t, h, ULLONG_MAX);
      assert AbsorbCounted(toks, ULLONG_MAX, ULLONG_MAX, 0) == AbsorbCounted(t, h, ULLONG_MAX, 1);
      if t != [] && LexicalCast(t[0]).Some? {
        var l := LexicalCast(t[0]).value;
        assert t[0] == toks[1];
        assert Absorb(t, h, ULLONG_MAX) == Absorb(t[1..], h, l);
        assert AbsorbCounted(t, h, ULLONG_MAX, 1) == AbsorbCounted(t[1..], h, l, 2);
      }
    }
  }
}
