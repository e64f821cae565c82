/**
  The address masking of support reports: every dotted quad that parses as an IPv4 address
  outside 127.0.0.0/8 keeps its first two octets and loses the others.
 */
module Redaction {
  import opened Wrappers
  import opened Text

  // ---------- The pattern \b(?:\d{1,3}\.){3}\d{1,3}\b ----------

  predicate IsWord(c: char) {
    IsDigit(c) || 'a' <= c <= 'z' || 'A' <= c <= 'Z' || c == '_'
  }

  /** \d{1,3} matches s[i..r]. */
  ghost predicate Group(s: string, i: nat, r: nat) {
    1 <= r - i <= 3 && r <= |s| && forall j :: i <= j < r ==> IsDigit(s[j])
  }

  /** The pattern after its first \b, with `dots` groups to go, matches exactly s[i..e].
      The last \b asks for a non-word character, or the end, after the last digit. */
  ghost predicate PatternMatches(s: string, i: nat, dots: nat, e: nat)
    decreases dots, |s|
  {
    if dots == 0 then
      Group(s, i, e) && (e == |s| || !IsWord(s[e]))
    else
      exists r: nat :: Group(s, i, r) && r < |s| && s[r] == '.' && PatternMatches(s, r + 1, dots - 1, e)
  }

  /** The end of the run of digits that starts at `i`. */
  function RunEnd(s: string, i: nat): (r: nat)
    requires i <= |s|
    ensures i <= r <= |s| && (forall j :: i <= j < r ==> IsDigit(s[j]))
    ensures r < |s| ==> !IsDigit(s[r])
    decreases |s| - i
  {
    if i < |s| && IsDigit(s[i]) then RunEnd(s, i + 1) else i
  }

  /** The scanner: the end of the match that starts at `i`, 0 if there is none. */
  function QuadEnd(s: string, i: nat, dots: nat): (e: nat)
    requires i <= |s|
    ensures e == 0 || i < e <= |s|
    decreases dots, |s|
  {
    var r := RunEnd(s, i);
    if !(1 <= r - i <= 3) then 0
    else if dots == 0 then if r == |s| || !IsWord(s[r]) then r else 0
    else if r == |s| || s[r] != '.' then 0
    else QuadEnd(s, r + 1, dots - 1)
  }

  // ---------- The replacement ----------

  /** One octet as net.ParseIP reads it: one to three digits, no leading zero, at most 255. */
  function ParseOctet(f: string): Option<uint8> {
    if 1 <= |f| <= 3 && RunEnd(f, 0) == |f| && (|f| == 1 || f[0] != '0') && ValueOf(f) <= 255
    then Some(ValueOf(f))
    else None
  }

  /** One more octet than `dots`, with dots in between. */
  function ParseFields(s: string, dots: nat): Option<seq<uint8>>
    decreases dots, |s|
  {
    var p := RunEnd(s, 0);
    var x := ParseOctet(s[..p]);
    if x.None? then None
    else if dots == 0 then if p == |s| then Some([x.value]) else None
    else if p == |s| || s[p] != '.' then None
    else
      var rest := ParseFields(s[p + 1..], dots - 1);
      if rest.None? then None else Some([x.value] + rest.value)
  }

  /** net.ParseIP on a text without colons. */
  function ParseIPv4(s: string): Option<seq<uint8>> {
    ParseFields(s, 3)
  }

  /** Numbers with dots in between; for four of them, the usual notation of an address. */
  function Dotted(ip: seq<uint8>): string
    requires ip != []
  {
    if |ip| == 1 then Decimal(ip[0]) else Decimal(ip[0]) + "." + Dotted(ip[1..])
  }

  const HIDDEN := ".xxx.xxx"

  /** What the callback of maskIP returns for a match.  A match holds no colon, so it never
      parses as an IPv6 address. */
  function Replacement(m: string): string {
    var ip := ParseIPv4(m);
    if ip.None? || |ip.value| != 4 || ip.value[0] == 127 then m
    else Decimal(ip.value[0]) + "." + Decimal(ip.value[1]) + HIDDEN
  }

  // ---------- The rewriter ----------

  /** Leftmost, non-overlapping: a piece of the input is a match or a character outside. */
  datatype Piece = Outside(c: char) | Match(text: string)

  /** The length of the match at the front of `s`; \b before a digit asks that no word
      character comes before it. */
  function MatchLength(afterWord: bool, s: string): (n: nat)
    ensures n <= |s|
  {
    if afterWord then 0 else QuadEnd(s, 0, 3)
  }

  function Scan(afterWord: bool, s: string): seq<Piece>
    decreases |s|
  {
    if s == [] then []
    else
      var n := MatchLength(afterWord, s);
      if n == 0 then [Outside(s[0])] + Scan(IsWord(s[0]), s[1..])
      else [Match(s[..n])] + Scan(true, s[n..])
  }

  function Render(ps: seq<Piece>): string {
    if ps == [] then ""
    else (match ps[0] case Outside(c) => [c] case Match(m) => Replacement(m)) + Render(ps[1..])
  }

  function Mask(afterWord: bool, s: string): string {
    Render(Scan(afterWord, s))
  }

  /** maskIP. */
  function MaskIP(input: string): string {
    Mask(false, input)
  }

  /** The matches among the pieces, in order. */
  function Found(ps: seq<Piece>): seq<string> {
    if ps == [] then []
    else (match ps[0] case Outside(_) => [] case Match(m) => [m]) + Found(ps[1..])
  }

  /** The matches that the callback leaves alone. */
  function Kept(ms: seq<string>): seq<string> {
    if ms == [] then []
    else (if Replacement(ms[0]) == ms[0] then [ms[0]] else []) + Kept(ms[1..])
  }
}
