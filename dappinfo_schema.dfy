/**
 * The dapp's contract addresses and their schema (web-app/src/app/lib/loaders/dappInfo/schema.ts):
 * each is a string matching `/^0x([0-9]|[a-f]){40}$/i`.
 */
module DappInfoSchema {

  datatype DappInfo = DappInfo(stakingContractAddr: string, stakingTokenAddr: string, rewardTokenAddr: string)

  // ---------------------------------------------------------------------------
  // The regular expression, as a sequence of one-character atoms matched case-insensitively

  datatype CharRange = CharRange(lo: char, hi: char)

  /** A literal character, or a class made of ranges (`[0-9]|[a-f]` is the class of both ranges). */
  datatype Atom = Literal(c: char) | Class(ranges: seq<CharRange>)

  function ToLower(ch: char): char {
    if 'A' <= ch <= 'Z' then (ch as int + 32) as char else ch
  }

  function ToUpper(ch: char): char {
    if 'a' <= ch <= 'z' then (ch as int - 32) as char else ch
  }

  /** With the `i` flag a character matches when it, or its other-case form, is in the range. */
  predicate InRangeIgnoringCase(ch: char, r: CharRange) {
    (r.lo <= ch <= r.hi) || (r.lo <= ToLower(ch) <= r.hi) || (r.lo <= ToUpper(ch) <= r.hi)
  }

  predicate AtomMatches(a: Atom, ch: char) {
    if a.Literal? then ToLower(ch) == ToLower(a.c)
    else exists k :: 0 <= k < |a.ranges| && InRangeIgnoringCase(ch, a.ranges[k])
  }

  /** An anchored match (`^...$`): the atoms match the characters one for one and nothing is left over. */
  predicate Matches(pattern: seq<Atom>, s: string)
    decreases pattern
  {
    if pattern == [] then s == []
    else s != [] && AtomMatches(pattern[0], s[0]) && Matches(pattern[1..], s[1..])
  }

  const HEX_ATOM: Atom := Class([CharRange('0', '9'), CharRange('a', 'f')])

  /** `^0x([0-9]|[a-f]){40}$`. */
  function EthAddressPattern(): (p: seq<Atom>)
    ensures |p| == 42 && p[0] == Literal('0') && p[1] == Literal('x')
    ensures forall i :: 2 <= i < 42 ==> p[i] == HEX_ATOM
  {
    [Literal('0'), Literal('x')] + HexDigits(40)
  }

  function HexDigits(n: nat): (p: seq<Atom>)
    ensures |p| == n && forall i :: 0 <= i < n ==> p[i] == HEX_ATOM
  {
    if n == 0 then [] else [HEX_ATOM] + HexDigits(n - 1)
  }

  /** `ethAddressSchema`: a valid address is 42 characters long and starts with a zero. */
  predicate IsEthAddress(s: string)
    ensures IsEthAddress(s) ==> |s| == 42 && s[0] == '0'
  {
    MatchesPointwise(EthAddressPattern(), s);
    Matches(EthAddressPattern(), s)
  }

  /** `dappInfoSchema`: all three addresses must pass. */
  predicate IsValidDappInfo(d: DappInfo)
    ensures IsValidDappInfo(d) ==> |d.stakingContractAddr| == |d.stakingTokenAddr| == |d.rewardTokenAddr| == 42
  {
    IsEthAddress(d.stakingContractAddr) && IsEthAddress(d.stakingTokenAddr) && IsEthAddress(d.rewardTokenAddr)
  }

  // ---------------------------------------------------------------------------
  // Properties

  predicate IsHexChar(ch: char) {
    '0' <= ch <= '9' || 'a' <= ch <= 'f' || 'A' <= ch <= 'F'
  }

  /** An anchored match of single-character atoms is a match position by position, with equal lengths. */
  lemma {:induction false} MatchesPointwise(pattern: seq<Atom>, s: string)
    ensures Matches(pattern, s) <==> |s| == |pattern| && forall i :: 0 <= i < |s| ==> AtomMatches(pattern[i], s[i])
    decreases pattern
  {
    if pattern != [] && s != [] {
      MatchesPointwise(pattern[1..], s[1..]);
      if |s| == |pattern| && forall i :: 0 <= i < |s| ==> AtomMatches(pattern[i], s[i]) {
        forall i | 0 <= i < |s[1..]| ensures AtomMatches(pattern[1..][i], s[1..][i]) {
          assert AtomMatches(pattern[i + 1], s[i + 1]);
        }
      }
    }
  }

  lemma HexAtomMatchesHexChars(ch: char)
    ensures AtomMatches(HEX_ATOM, ch) <==> IsHexChar(ch)
  {
    if IsHexChar(ch) {
      if '0' <= ch <= '9' {
        assert InRangeIgnoringCase(ch, HEX_ATOM.ranges[0]);
      } else {
        assert InRangeIgnoringCase(ch, HEX_ATOM.ranges[1]);
      }
    }
  }

  /**
   * An address is valid exactly when it has 42 characters: "0x" or "0X", then 40 hexadecimal digits
   * in either case.
   */
  lemma EthAddressCharacterisation(s: string)
    ensures IsEthAddress(s) <==>
      && |s| == 42 && s[0] == '0' && (s[1] == 'x' || s[1] == 'X')
      && forall i :: 2 <= i < 42 ==> IsHexChar(s[i])
  {
    MatchesPointwise(EthAddressPattern(), s);
    forall i | 0 <= i < |s| && i < 42
      ensures AtomMatches(EthAddressPattern()[i], s[i]) <==>
        if i == 0 then s[i] == '0' else if i == 1 then s[i] == 'x' || s[i] == 'X' else IsHexChar(s[i])
    {
      if i >= 2 {
        HexAtomMatchesHexChars(s[i]);
      }
    }
  }

  /** The `i` flag makes the case of the prefix and of the digits irrelevant. */
  lemma CaseDoesNotMatter(s: string, t: string)
    requires |s| == |t| && forall i :: 0 <= i < |s| ==> ToLower(s[i]) == ToLower(t[i])
    ensures IsEthAddress(s) <==> IsEthAddress(t)
  {
    EthAddressCharacterisation(s);
    EthAddressCharacterisation(t);
    forall i | 0 <= i < |s|
      ensures (IsHexChar(s[i]) <==> IsHexChar(t[i])) && (s[i] == '0' <==> t[i] == '0')
      ensures (s[i] == 'x' || s[i] == 'X') <==> (t[i] == 'x' || t[i] == 'X')
    {
      SameLowerSameClass(s[i], t[i]);
    }
  }

  lemma SameLowerSameClass(a: char, b: char)
    requires ToLower(a) == ToLower(b)
    ensures (IsHexChar(a) <==> IsHexChar(b)) && (a == '0' <==> b == '0')
    ensures (a == 'x' || a == 'X') <==> (b == 'x' || b == 'X')
  {
  }

  /** The pattern is anchored: an extra character in front or behind makes an address invalid. */
  lemma AnchoredAtBothEnds(s: string, c: char)
    requires IsEthAddress(s)
    ensures !IsEthAddress([c] + s) && !IsEthAddress(s + [c])
  {
    EthAddressCharacterisation(s);
    EthAddressCharacterisation([c] + s);
    EthAddressCharacterisation(s + [c]);
  }

  /** A zero address with the lower-case prefix is valid, and so is the upper-case prefix with upper-case digits. */
  lemma ScenarioValidAddresses()
    ensures IsEthAddress("0x" + seq(40, _ => '0'))
    ensures IsEthAddress("0X" + seq(40, _ => 'A'))
  {
    EthAddressCharacterisation("0x" + seq(40, _ => '0'));
    EthAddressCharacterisation("0X" + seq(40, _ => 'A'));
  }

  /** A non-hex digit is rejected. */
  lemma ScenarioNonHexRejected()
    ensures !IsEthAddress("0x" + seq(40, _ => 'g'))
  {
    var bad := "0x" + seq(40, _ => 'g');
    EthAddressCharacterisation(bad);
    assert !IsHexChar(bad[2]);
  }

  /** 39 hex digits are one too few. */
  lemma ScenarioShortRejected()
    ensures !IsEthAddress("0x" + seq(39, _ => '0'))
  {
    EthAddressCharacterisation("0x" + seq(39, _ => '0'));
  }

  /** A DappInfo is valid exactly when every one of its three addresses is, so one bad address rejects it. */
  lemma OneBadAddressRejects(d: DappInfo)
    requires !IsEthAddress(d.stakingContractAddr) || !IsEthAddress(d.stakingTokenAddr) || !IsEthAddress(d.rewardTokenAddr)
    ensures !IsValidDappInfo(d)
  {
  }
}
