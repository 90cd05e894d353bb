/**
 * The MAC-address format check that `MacResolver.resolve` runs before any
 * request: the candidate is lower-cased and matched with Python's `re.match`
 * against
 *
 *     [0-9a-f]{2}([-:.]?)[0-9a-f]{2}(\1[0-9a-f]{2}){4}$
 *
 * Three descriptions of the accepted language live here:
 *   - `RegexMatch`, a matcher that follows the pattern piece by piece,
 *     including the back-reference `\1`, the backtracking of the optional
 *     group and the end anchor `$` (which also admits one final line feed);
 *   - `IsCanonicalMac`, the grammar: six octets joined by one separator
 *     taken from {"", "-", ":", "."}, optionally followed by one line feed;
 *   - `IsValidFormat`, what `resolve` checks: the matcher on the lower-cased
 *     input, proved to agree with the grammar.
 */
module MacFormat {

  import opened Wrappers

  // ---------------------------------------------------------------------
  // Lower-casing (`str.lower`)
  // ---------------------------------------------------------------------

  /** `str.lower` on one character, for the ASCII letters. */
  function LowerChar(c: char): (r: char)
    ensures !('A' <= r <= 'Z')
    ensures IsHexDigit(r) <==> IsHexDigit(c) || 'A' <= c <= 'F'
    ensures IsSeparatorChar(r) <==> IsSeparatorChar(c)
    ensures r == '\n' <==> c == '\n'
  {
    if 'A' <= c <= 'Z' then (c as int + 32) as char else c
  }

  /** `str.lower` on a string, character by character. */
  function Lower(s: string): (r: string)
    ensures |r| == |s| && forall i :: 0 <= i < |s| ==> r[i] == LowerChar(s[i])
    ensures forall i :: 0 <= i < |r| ==> !('A' <= r[i] <= 'Z')
  {
    seq(|s|, i requires 0 <= i < |s| => LowerChar(s[i]))
  }

  // ---------------------------------------------------------------------
  // The pattern, piece by piece
  // ---------------------------------------------------------------------

  /** The character class `[0-9a-f]` (no IGNORECASE flag is given). */
  predicate IsHexDigit(c: char)
  {
    '0' <= c <= '9' || 'a' <= c <= 'f'
  }

  /** The character class `[-:.]`. */
  predicate IsSeparatorChar(c: char)
  {
    c == '-' || c == ':' || c == '.'
  }

  /** `[0-9a-f]{2}` at the head of `t`: what is left after it, if it matches. */
  function HexPair(t: string): Option<string>
  {
    if |t| >= 2 && IsHexDigit(t[0]) && IsHexDigit(t[1]) then Some(t[2..]) else None
  }

  /** The back-reference `\1`: exactly the captured text at the head of `t`. */
  function Backref(t: string, captured: string): Option<string>
  {
    if captured <= t then Some(t[|captured|..]) else None
  }

  /** `(\1[0-9a-f]{2}){n}` at the head of `t`. */
  function RepeatGroup(t: string, captured: string, n: nat): (r: Option<string>)
    ensures r.Some? ==> |t| == |r.value| + n * (|captured| + 2)
    decreases n
  {
    if n == 0 then Some(t)
    else
      match Backref(t, captured)
      case None => None
      case Some(u) =>
        match HexPair(u)
        case None => None
        case Some(v) => RepeatGroup(v, captured, n - 1)
  }

  /** Python's `$` without MULTILINE: the end of the string, or a final line feed. */
  predicate AtEnd(t: string)
  {
    t == [] || t == "\n"
  }

  /** The `{4}` of `(\1[0-9a-f]{2}){4}`. */
  const RepeatCount: nat := 4

  /** `[0-9a-f]{2}(\1[0-9a-f]{2}){4}$`, once group 1 has captured `captured`. */
  function MatchAfterCapture(t: string, captured: string): (b: bool)
    ensures b ==> |t| == 2 + RepeatCount * (|captured| + 2) || |t| == 3 + RepeatCount * (|captured| + 2)
  {
    match HexPair(t)
    case None => false
    case Some(u) =>
      match RepeatGroup(u, captured, RepeatCount)
      case None => false
      case Some(v) => AtEnd(v)
  }

  /**
   * `re.match` of the whole pattern, anchored at the start. The optional
   * group `([-:.]?)` is greedy: one separator character is tried first and,
   * if the rest fails, the engine backtracks to the empty capture.
   */
  function RegexMatch(t: string): (b: bool)
    ensures b ==> |t| in {12, 13, 17, 18}
  {
    match HexPair(t)
    case None => false
    case Some(u) =>
      (|u| >= 1 && IsSeparatorChar(u[0]) && MatchAfterCapture(u[1..], u[..1]))
      || MatchAfterCapture(u, [])
  }

  // ---------------------------------------------------------------------
  // The grammar
  // ---------------------------------------------------------------------

  /** The separators a MAC address may use: none, `-`, `:` or `.`. */
  const Separators: set<string> := {"", "-", ":", "."}

  /** Two lower-case hexadecimal digits. */
  predicate IsOctet(g: string)
  {
    |g| == 2 && IsHexDigit(g[0]) && IsHexDigit(g[1])
  }

  /** Each of `os`, preceded by `sep`. */
  function SepPrefixed(os: seq<string>, sep: string): string
  {
    if os == [] then [] else sep + os[0] + SepPrefixed(os[1..], sep)
  }

  /** The groups `os` joined by `sep`. */
  function Join(os: seq<string>, sep: string): string
    requires |os| >= 1
  {
    os[0] + SepPrefixed(os[1..], sep)
  }

  /**
   * Six octets joined by one separator used in all five positions,
   * optionally followed by the single line feed that `$` lets through.
   */
  ghost predicate IsCanonicalMac(t: string)
  {
    exists sep: string, os: seq<string> ::
      sep in Separators && |os| == 6 && (forall i :: 0 <= i < 6 ==> IsOctet(os[i]))
      && (t == Join(os, sep) || t == Join(os, sep) + "\n")
  }

  /** What the source accepts: the grammar, on the lower-cased input. */
  ghost predicate IsMacAddress(mac: string)
  {
    IsCanonicalMac(Lower(mac))
  }

  /**
   * The check at the top of `resolve`: `re.match(pattern, mac.lower())`.
   * It accepts exactly the strings the grammar describes.
   */
  function IsValidFormat(mac: string): (b: bool)
    ensures b <==> IsMacAddress(mac)
  {
    RegexAgreesWithGrammar(Lower(mac));
    RegexMatch(Lower(mac))
  }

  // ---------------------------------------------------------------------
  // The matcher agrees with the grammar
  // ---------------------------------------------------------------------

  /** Length of the joined groups when every group is an octet. */
  lemma {:induction false} SepPrefixedLength(os: seq<string>, sep: string)
    requires forall i :: 0 <= i < |os| ==> IsOctet(os[i])
    ensures |SepPrefixed(os, sep)| == |os| * (|sep| + 2)
  {
    if os != [] {
      SepPrefixedLength(os[1..], sep);
    }
  }

  /** `(\1[0-9a-f]{2}){n}` consumes `n` separator-prefixed octets. */
  lemma {:induction false} RepeatGroupConsumes(os: seq<string>, sep: string, rest: string)
    requires forall i :: 0 <= i < |os| ==> IsOctet(os[i])
    ensures RepeatGroup(SepPrefixed(os, sep) + rest, sep, |os|) == Some(rest)
  {
    if os != [] {
      var t := SepPrefixed(os, sep) + rest;
      var tail := SepPrefixed(os[1..], sep) + rest;
      assert t == sep + (os[0] + tail);
      assert t[..|sep|] == sep && t[|sep|..] == os[0] + tail;
      assert Backref(t, sep) == Some(os[0] + tail);
      assert IsOctet(os[0]) && (os[0] + tail)[2..] == tail;
      assert HexPair(os[0] + tail) == Some(tail);
      RepeatGroupConsumes(os[1..], sep, rest);
      assert |os[1..]| == |os| - 1;
      assert RepeatGroup(t, sep, |os|) == RepeatGroup(tail, sep, |os| - 1);
    } else {
      assert SepPrefixed(os, sep) + rest == rest;
    }
  }

  /** Conversely, what `(\1[0-9a-f]{2}){n}` consumes is `n` separator-prefixed octets. */
  lemma {:induction false} RepeatGroupInversion(t: string, sep: string, n: nat) returns (os: seq<string>)
    requires RepeatGroup(t, sep, n).Some?
    ensures |os| == n && forall i :: 0 <= i < n ==> IsOctet(os[i])
    ensures t == SepPrefixed(os, sep) + RepeatGroup(t, sep, n).value
  {
    if n == 0 {
      os := [];
    } else {
      var u := Backref(t, sep).value;
      var v := HexPair(u).value;
      var rest := RepeatGroup(v, sep, n - 1).value;
      assert RepeatGroup(t, sep, n).value == rest;
      var tailOs := RepeatGroupInversion(v, sep, n - 1);
      os := [u[..2]] + tailOs;
      assert IsOctet(u[..2]);
      assert forall i :: 1 <= i < n ==> os[i] == tailOs[i - 1];
      assert t == sep + u by {
        assert t[..|sep|] == sep && t[|sep|..] == u;
      }
      assert u == u[..2] + v;
      SepPrefixedCons(u[..2], tailOs, sep, rest);
    }
  }

  /** Unfolding `SepPrefixed` once, with the rest of the string attached. */
  lemma SepPrefixedCons(g: string, os: seq<string>, sep: string, rest: string)
    ensures SepPrefixed([g] + os, sep) + rest == sep + (g + (SepPrefixed(os, sep) + rest))
  {
    assert ([g] + os)[1..] == os;
  }

  /** What `[0-9a-f]{2}(\1[0-9a-f]{2}){4}$` accepts: five octets, the four last prefixed by the capture. */
  lemma AfterCaptureInversion(w: string, sep: string) returns (os: seq<string>, rest: string)
    requires MatchAfterCapture(w, sep)
    ensures |os| == 5 && (forall i :: 0 <= i < 5 ==> IsOctet(os[i])) && AtEnd(rest)
    ensures sep + w == SepPrefixed(os, sep) + rest
  {
    var x := HexPair(w).value;
    rest := RepeatGroup(x, sep, RepeatCount).value;
    var os4 := RepeatGroupInversion(x, sep, RepeatCount);
    os := [w[..2]] + os4;
    assert w == w[..2] + x;
    SepPrefixedCons(w[..2], os4, sep, rest);
  }

  /** The grammar, from an explicit separator and octets. */
  lemma CanonicalFromParts(t: string, sep: string, os: seq<string>, rest: string)
    requires sep in Separators && |os| == 6 && (forall i :: 0 <= i < 6 ==> IsOctet(os[i]))
    requires AtEnd(rest) && t == Join(os, sep) + rest
    ensures IsCanonicalMac(t)
  {
    assert t == Join(os, sep) || t == Join(os, sep) + "\n";
  }

  /** The group 1 capture of an accepted string, and what follows it. */
  lemma CaptureOf(u: string) returns (sep: string, w: string)
    requires (|u| >= 1 && IsSeparatorChar(u[0]) && MatchAfterCapture(u[1..], u[..1])) || MatchAfterCapture(u, [])
    ensures sep in Separators && u == sep + w && MatchAfterCapture(w, sep)
  {
    if |u| >= 1 && IsSeparatorChar(u[0]) && MatchAfterCapture(u[1..], u[..1]) {
      sep, w := u[..1], u[1..];
      assert sep == [u[0]] && u == sep + w;
      assert sep == "-" || sep == ":" || sep == ".";
    } else {
      sep, w := [], u;
      assert u == sep + w;
    }
  }

  /** Every string the matcher accepts is in the grammar. */
  lemma RegexMatchIsCanonical(t: string)
    requires RegexMatch(t)
    ensures IsCanonicalMac(t)
  {
    var u := HexPair(t).value;
    assert t == t[..2] + u;
    var sep, w := CaptureOf(u);
    var os5, rest := AfterCaptureInversion(w, sep);
    var os := [t[..2]] + os5;
    assert os[1..] == os5;
    assert Join(os, sep) == t[..2] + SepPrefixed(os5, sep);
    assert t == Join(os, sep) + rest;
    CanonicalFromParts(t, sep, os, rest);
  }

  /** The separator and the octets of a string in the grammar. */
  lemma CanonicalWitness(t: string) returns (sep: string, os: seq<string>, rest: string)
    requires IsCanonicalMac(t)
    ensures sep in Separators && |os| == 6 && (forall i :: 0 <= i < 6 ==> IsOctet(os[i]))
    ensures rest in {"", "\n"} && t == Join(os, sep) + rest
  {
    sep, os :| sep in Separators && |os| == 6 && (forall i :: 0 <= i < 6 ==> IsOctet(os[i]))
      && (t == Join(os, sep) || t == Join(os, sep) + "\n");
    rest := if t == Join(os, sep) then "" else "\n";
    assert t == Join(os, sep) + rest;
  }

  /** Group 1 may capture `sep` in front of `w`: the greedy try or the empty fallback. */
  lemma CaptureAccepts(u: string, sep: string, w: string)
    requires sep in Separators && u == sep + w && MatchAfterCapture(w, sep)
    requires |w| >= 1 && IsHexDigit(w[0])
    ensures (|u| >= 1 && IsSeparatorChar(u[0]) && MatchAfterCapture(u[1..], u[..1])) || MatchAfterCapture(u, [])
  {
    if sep == [] {
      assert u == w;
    } else {
      assert |sep| == 1 && IsSeparatorChar(sep[0]);
      assert u[0] == sep[0] && u[..1] == sep && u[1..] == w;
    }
  }

  /** Six octets joined by a separator, then an end the anchor accepts, match the pattern. */
  lemma JoinedIsRegexMatch(os: seq<string>, sep: string, rest: string)
    requires sep in Separators && |os| == 6 && (forall i :: 0 <= i < 6 ==> IsOctet(os[i]))
    requires AtEnd(rest)
    ensures RegexMatch(Join(os, sep) + rest)
  {
    var t := Join(os, sep) + rest;
    var os4 := os[2..];
    assert os[1..] == [os[1]] + os4;
    var x := SepPrefixed(os4, sep) + rest;
    var w := os[1] + x;
    var u := sep + w;
    SepPrefixedCons(os[1], os4, sep, rest);
    assert t == os[0] + u;
    assert IsOctet(os[0]) && t[2..] == u;
    assert HexPair(t) == Some(u);
    assert IsOctet(os[1]) && w[2..] == x;
    assert HexPair(w) == Some(x);
    assert forall i :: 0 <= i < |os4| ==> os4[i] == os[i + 2];
    RepeatGroupConsumes(os4, sep, rest);
    assert MatchAfterCapture(w, sep);
    CaptureAccepts(u, sep, w);
  }

  /** Every string of the grammar is accepted by the matcher. */
  lemma CanonicalIsRegexMatch(t: string)
    requires IsCanonicalMac(t)
    ensures RegexMatch(t)
  {
    var sep, os, rest := CanonicalWitness(t);
    JoinedIsRegexMatch(os, sep, rest);
  }

  /** The regular-expression reading and the grammar describe the same strings. */
  lemma RegexAgreesWithGrammar(t: string)
    ensures RegexMatch(t) <==> IsCanonicalMac(t)
  {
    if RegexMatch(t) {
      RegexMatchIsCanonical(t);
    }
    if IsCanonicalMac(t) {
      CanonicalIsRegexMatch(t);
    }
  }

  // ---------------------------------------------------------------------
  // Consequences
  // ---------------------------------------------------------------------

  /** A string of the grammar has 12 or 17 characters, plus possibly the final line feed. */
  lemma GrammarLengths(t: string)
    requires IsCanonicalMac(t)
    ensures |t| in {12, 13, 17, 18}
    ensures |t| in {13, 18} ==> t[|t| - 1] == '\n'
  {
    var sep, os, rest := CanonicalWitness(t);
    var os5 := os[1..];
    assert forall i :: 0 <= i < 5 ==> os5[i] == os[i + 1];
    SepPrefixedLength(os5, sep);
    assert |t| == 2 + 5 * (|sep| + 2) + |rest|;
    assert |sep| <= 1 by {
      assert sep == "" || sep == "-" || sep == ":" || sep == ".";
    }
    if rest != "" {
      assert t[|t| - 1] == rest[0];
    }
  }

  /** An accepted string has 12 or 17 characters, plus possibly the final line feed. */
  lemma AcceptedLengths(mac: string)
    requires IsValidFormat(mac)
    ensures |mac| in {12, 13, 17, 18}
    ensures |mac| in {13, 18} ==> mac[|mac| - 1] == '\n'
  {
    var t := Lower(mac);
    GrammarLengths(t);
    assert |t| == |mac|;
    if |mac| in {13, 18} {
      assert LowerChar(mac[|mac| - 1]) == '\n';
    }
  }

  /** The characters of separator-prefixed octets, position by position, for a one-character separator. */
  lemma {:induction false} SepPrefixedAt(os: seq<string>, sep: string, k: nat)
    requires |sep| == 1 && forall i :: 0 <= i < |os| ==> IsOctet(os[i])
    requires k < |os|
    ensures |os[k]| == 2
    ensures |SepPrefixed(os, sep)| == 3 * |os|
    ensures SepPrefixed(os, sep)[3 * k] == sep[0]
    ensures SepPrefixed(os, sep)[3 * k + 1] == os[k][0] && SepPrefixed(os, sep)[3 * k + 2] == os[k][1]
  {
    SepPrefixedLength(os, sep);
    var s := SepPrefixed(os, sep);
    var tail := SepPrefixed(os[1..], sep);
    assert s == sep + os[0] + tail;
    if k > 0 {
      SepPrefixedAt(os[1..], sep, k - 1);
      assert s[3 * k] == tail[3 * (k - 1)];
      assert s[3 * k + 1] == tail[3 * (k - 1) + 1];
      assert s[3 * k + 2] == tail[3 * (k - 1) + 2];
    }
  }

  /**
   * The back-reference in action: in an accepted address with separators,
   * all five separator positions hold the same character from `[-:.]`, so
   * mixing separators is rejected.
   */
  lemma SeparatorIsUniform(mac: string, k: nat)
    requires IsValidFormat(mac) && |mac| >= 17
    requires k < 5
    ensures IsSeparatorChar(mac[2])
    ensures mac[3 * k + 2] == mac[2]
  {
    var t := Lower(mac);
    GrammarSeparatorPositions(t, k);
    assert LowerChar(mac[2]) == t[2] && LowerChar(mac[3 * k + 2]) == t[3 * k + 2];
  }

  /** The separator positions of a long string of the grammar. */
  lemma GrammarSeparatorPositions(t: string, k: nat)
    requires IsCanonicalMac(t) && |t| >= 17
    requires k < 5
    ensures IsSeparatorChar(t[2])
    ensures t[3 * k + 2] == t[2]
  {
    var sep, os, rest := CanonicalWitness(t);
    var os5 := os[1..];
    assert forall i :: 0 <= i < 5 ==> os5[i] == os[i + 1];
    SepPrefixedLength(os5, sep);
    assert |sep| == 1 by {
      assert |t| == 2 + 5 * (|sep| + 2) + |rest|;
    }
    assert IsSeparatorChar(sep[0]) by {
      assert sep == "-" || sep == ":" || sep == ".";
    }
    var tail := SepPrefixed(os5, sep);
    SepPrefixedAt(os5, sep, 0);
    SepPrefixedAt(os5, sep, k);
    assert t == os[0] + tail + rest;
    assert t[2] == tail[0] && t[3 * k + 2] == tail[3 * k];
  }

  /** Strings that differ only in the case of ASCII letters are accepted alike. */
  lemma CaseInsensitive(mac: string, other: string)
    requires |mac| == |other|
    requires forall i :: 0 <= i < |mac| ==> LowerChar(mac[i]) == LowerChar(other[i])
    ensures IsValidFormat(mac) == IsValidFormat(other)
  {
    assert Lower(mac) == Lower(other);
  }

  /** The six octets of the address used in the examples below. */
  const ExampleOctets: seq<string> := ["aa", "bb", "cc", "dd", "ee", "ff"]

  lemma ExampleColonJoin()
    ensures Join(ExampleOctets, ":") == "aa:bb:cc:dd:ee:ff"
  {
    var os := ExampleOctets;
    assert os[1..][1..] == os[2..] && os[2..][1..] == os[3..] && os[3..][1..] == os[4..];
    assert os[4..][1..] == os[5..] && os[5..][1..] == [];
  }

  lemma ExampleBareJoin()
    ensures Join(ExampleOctets, "") == "aabbccddeeff"
  {
    var os := ExampleOctets;
    assert os[1..][1..] == os[2..] && os[2..][1..] == os[3..] && os[3..][1..] == os[4..];
    assert os[4..][1..] == os[5..] && os[5..][1..] == [];
  }

  lemma ExampleLower()
    ensures Lower("AA:BB:CC:DD:EE:FF") == "aa:bb:cc:dd:ee:ff"
    ensures Lower("aabbccddeeff\n") == "aabbccddeeff\n"
    ensures Lower("aabbccddeeff") == "aabbccddeeff"
  {
    var mac, t := "AA:BB:CC:DD:EE:FF", "aa:bb:cc:dd:ee:ff";
    forall i | 0 <= i < |mac| ensures Lower(mac)[i] == t[i] {
    }
    var bare := "aabbccddeeff\n";
    forall i | 0 <= i < |bare| ensures Lower(bare)[i] == bare[i] {
    }
    assert Lower(bare[..12]) == bare[..12];
  }

  /** An address whose lower-cased form is six octets joined by a separator, then an allowed end, is accepted. */
  lemma AcceptsJoined(mac: string, os: seq<string>, sep: string, rest: string)
    requires sep in Separators && |os| == 6 && (forall i :: 0 <= i < 6 ==> IsOctet(os[i]))
    requires AtEnd(rest) && Lower(mac) == Join(os, sep) + rest
    ensures IsValidFormat(mac)
  {
    JoinedIsRegexMatch(os, sep, rest);
  }

  /** An upper-case address with colons, as the usage text shows it, is accepted. */
  lemma AcceptsColonForm()
    ensures IsValidFormat("AA:BB:CC:DD:EE:FF")
  {
    ExampleColonJoin();
    ExampleLower();
    assert "aa:bb:cc:dd:ee:ff" + "" == "aa:bb:cc:dd:ee:ff";
    AcceptsJoined("AA:BB:CC:DD:EE:FF", ExampleOctets, ":", "");
  }

  /** A bare address is accepted, alone and followed by the one line feed that `$` lets through. */
  lemma AcceptsBareForm()
    ensures IsValidFormat("aabbccddeeff")
    ensures IsValidFormat("aabbccddeeff\n")
  {
    ExampleBareJoin();
    ExampleLower();
    assert "aabbccddeeff" + "" == "aabbccddeeff";
    AcceptsJoined("aabbccddeeff", ExampleOctets, "", "");
    AcceptsJoined("aabbccddeeff\n", ExampleOctets, "", "\n");
  }

  /** Mixed separators, a wrong length and trailing text are rejected. */
  lemma RejectsMalformed(mac: string)
    requires || (|mac| >= 17 && exists k :: 0 <= k < 5 && mac[3 * k + 2] != mac[2])
             || |mac| !in {12, 13, 17, 18}
             || (|mac| in {13, 18} && mac[|mac| - 1] != '\n')
    ensures !IsValidFormat(mac)
  {
    if IsValidFormat(mac) {
      AcceptedLengths(mac);
      if |mac| >= 17 {
        var k :| 0 <= k < 5 && mac[3 * k + 2] != mac[2];
        SeparatorIsUniform(mac, k);
      }
      assert false;
    }
  }

  /** Mixed separators, for example `AA:BB-CC:DD:EE:FF`, are rejected. */
  lemma RejectsMixedExample()
    ensures !IsValidFormat("AA:BB-CC:DD:EE:FF")
  {
    var mac := "AA:BB-CC:DD:EE:FF";
    assert mac[3 * 1 + 2] != mac[2];
    RejectsMalformed(mac);
  }

  /** Text that is no address at all, and an address with a trailing space, are rejected. */
  lemma RejectsOtherExamples()
    ensures !IsValidFormat("not-a-mac")
    ensures !IsValidFormat("aa:bb:cc:dd:ee:ff ")
  {
    RejectsMalformed("not-a-mac");
    RejectsMalformed("aa:bb:cc:dd:ee:ff ");
  }
}
