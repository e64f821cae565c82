/**
  The scanner finds exactly the matches of the pattern, and what a replacement looks like.
 */
module RedactionProofs {
  import opened Wrappers
  import opened Text
  import opened Redaction

  // ---------- The scanner is the pattern ----------

  lemma {:induction false} RunIsGroup(s: string, i: nat, r: nat)
    requires i <= r <= |s| && (forall j :: i <= j < r ==> IsDigit(s[j]))
    requires r < |s| ==> !IsDigit(s[r])
    ensures RunEnd(s, i) == r
    decreases r - i
  {
    if i < r {
      RunIsGroup(s, i + 1, r);
    }
  }

  lemma QuadStep(s: string, i: nat, r: nat, dots: nat)
    requires i <= r < |s| && r == RunEnd(s, i) && 1 <= r - i <= 3 && s[r] == '.' && dots > 0
    ensures QuadEnd(s, i, dots) == QuadEnd(s, r + 1, dots - 1)
  {}

  lemma QuadLast(s: string, i: nat, r: nat)
    requires i <= r <= |s| && r == RunEnd(s, i) && 1 <= r - i <= 3 && (r == |s| || !IsWord(s[r]))
    ensures QuadEnd(s, i, 0) == r
  {}

  /** The first group of a match, and where the rest of it starts. */
  lemma PatternStep(s: string, i: nat, dots: nat, e: nat) returns (r: nat)
    requires i <= |s| && dots > 0 && PatternMatches(s, i, dots, e)
    ensures i <= r < |s| && r == RunEnd(s, i) && 1 <= r - i <= 3 && s[r] == '.'
    ensures PatternMatches(s, r + 1, dots - 1, e)
  {
    r :| Group(s, i, r) && r < |s| && s[r] == '.' && PatternMatches(s, r + 1, dots - 1, e);
    RunIsGroup(s, i, r);
  }

  lemma {:induction false} PatternIsScanned(s: string, i: nat, dots: nat, e: nat)
    requires i <= |s| && PatternMatches(s, i, dots, e)
    ensures QuadEnd(s, i, dots) == e > 0
    decreases dots
  {
    if dots == 0 {
      RunIsGroup(s, i, e);
      QuadLast(s, i, e);
    } else {
      var r := PatternStep(s, i, dots, e);
      QuadStep(s, i, r, dots);
      PatternIsScanned(s, r + 1, dots - 1, e);
    }
  }

  lemma {:induction false} ScannedIsPattern(s: string, i: nat, dots: nat)
    requires i <= |s| && QuadEnd(s, i, dots) > 0
    ensures PatternMatches(s, i, dots, QuadEnd(s, i, dots))
    decreases dots
  {
    var r := RunEnd(s, i);
    assert Group(s, i, r);
    if dots > 0 {
      ScannedIsPattern(s, r + 1, dots - 1);
    }
  }

  /** The pattern has at most one match at a place, and the scanner returns its end:
      backtracking and greed never come into play. */
  lemma ScannerIsPattern(s: string, i: nat, dots: nat, e: nat)
    requires i <= |s|
    ensures PatternMatches(s, i, dots, e) <==> e > 0 && e == QuadEnd(s, i, dots)
  {
    if PatternMatches(s, i, dots, e) {
      PatternIsScanned(s, i, dots, e);
    }
    if e > 0 && e == QuadEnd(s, i, dots) {
      ScannedIsPattern(s, i, dots);
    }
  }

  /** A match depends only on its own characters and on what follows it being a non-word
      character or the end. */
  lemma {:induction false} MatchIsLocal(s: string, t: string, i: nat, dots: nat, e: nat)
    requires i <= |s| && QuadEnd(s, i, dots) == e > 0
    requires e <= |t| && (forall j :: i <= j < e ==> t[j] == s[j])
    requires e < |t| ==> !IsWord(t[e])
    ensures QuadEnd(t, i, dots) == e
    decreases dots
  {
    var r := RunEnd(s, i);
    RunIsGroup(t, i, r);
    if dots > 0 {
      MatchIsLocal(s, t, r + 1, dots - 1, e);
    }
  }

  /** A match is made of digits and dots, and ends in a digit. */
  lemma {:induction false} MatchCharacters(s: string, i: nat, dots: nat, e: nat)
    requires i <= |s| && e == QuadEnd(s, i, dots) > 0
    ensures forall j :: i <= j < e ==> IsDigit(s[j]) || s[j] == '.'
    ensures IsDigit(s[e - 1]) && (e < |s| ==> !IsWord(s[e]))
    decreases dots
  {
    if dots > 0 {
      MatchCharacters(s, RunEnd(s, i) + 1, dots - 1, e);
    }
  }

  // ---------- What a replacement looks like ----------

  ghost predicate Field(f: string) {
    1 <= |f| <= 3 && AllDigits(f)
  }

  lemma OctetText(f: string)
    requires ParseOctet(f).Some?
    ensures Field(f) && Decimal(ParseOctet(f).value) == f
  {
    ValueRoundTrip(f);
  }

  lemma OctetOfByte(x: uint8)
    ensures Field(Decimal(x)) && ParseOctet(Decimal(x)) == Some(x)
  {
    var f := Decimal(x);
    DecimalRoundTrip(x);
    if x >= 10 {
      assert Decimal(x / 10)[0] == f[0];
    }
    RunIsGroup(f, 0, |f|);
  }

  lemma DottedStep(x: uint8, rest: seq<uint8>)
    requires rest != []
    ensures Dotted([x] + rest) == Decimal(x) + "." + Dotted(rest)
  {
    assert ([x] + rest)[1..] == rest;
  }

  lemma SplitAtDot(s: string, p: nat)
    requires p < |s| && s[p] == '.'
    ensures s == s[..p] + "." + s[p + 1..]
  {}

  lemma {:induction false} ParsedIsDotted(s: string, dots: nat)
    requires ParseFields(s, dots).Some?
    ensures var ip := ParseFields(s, dots).value; |ip| == dots + 1 && s == Dotted(ip)
    decreases dots
  {
    var p := RunEnd(s, 0);
    OctetText(s[..p]);
    if dots > 0 {
      var z := s[p + 1..];
      ParsedIsDotted(z, dots - 1);
      SplitAtDot(s, p);
      DottedStep(ParseOctet(s[..p]).value, ParseFields(z, dots - 1).value);
    } else {
      assert s[..p] == s;
    }
  }

  /** A field before a dot is the run of digits at the front. */
  lemma FieldThenDot(f: string, rest: string)
    requires Field(f)
    ensures var s := f + "." + rest;
            RunEnd(s, 0) == |f| && s[|f|] == '.' && s[..|f|] == f && s[|f| + 1..] == rest
  {
    RunIsGroup(f + "." + rest, 0, |f|);
  }

  lemma ParseJoins(f: string, x: uint8, z: string, dots: nat, rest: seq<uint8>, s: string)
    requires Field(f) && ParseOctet(f) == Some(x) && ParseFields(z, dots) == Some(rest) && s == f + "." + z
    ensures ParseFields(s, dots + 1) == Some([x] + rest)
  {
    FieldThenDot(f, z);
  }

  lemma ParseLast(f: string, x: uint8)
    requires Field(f) && ParseOctet(f) == Some(x)
    ensures ParseFields(f, 0) == Some([x])
  {
    RunIsGroup(f, 0, |f|);
    assert f[..|f|] == f;
  }

  lemma DottedParses(x: uint8, rest: seq<uint8>, dots: nat)
    requires rest != [] && ParseFields(Dotted(rest), dots) == Some(rest)
    ensures ParseFields(Decimal(x) + "." + Dotted(rest), dots + 1) == Some([x] + rest)
  {
    OctetOfByte(x);
    ParseJoins(Decimal(x), x, Dotted(rest), dots, rest, Decimal(x) + "." + Dotted(rest));
  }

  lemma {:induction false} DottedIsParsed(ip: seq<uint8>, dots: nat)
    requires |ip| == dots + 1
    ensures ParseFields(Dotted(ip), dots) == Some(ip)
    decreases dots
  {
    if dots == 0 {
      OctetOfByte(ip[0]);
      ParseLast(Decimal(ip[0]), ip[0]);
      assert ip == [ip[0]];
    } else {
      var rest := ip[1..];
      assert ip == [ip[0]] + rest;
      DottedIsParsed(rest, dots - 1);
      DottedParses(ip[0], rest, dots - 1);
      DottedStep(ip[0], rest);
    }
  }

  /** The parser and the notation are inverse to each other. */
  lemma ParseIffDotted(m: string, ip: seq<uint8>)
    ensures ParseIPv4(m) == Some(ip) <==> |ip| == 4 && m == Dotted(ip)
  {
    if ParseIPv4(m) == Some(ip) {
      ParsedIsDotted(m, 3);
    }
    if |ip| == 4 && m == Dotted(ip) {
      DottedIsParsed(ip, 3);
    }
  }

  lemma TwoFields(ip: seq<uint8>)
    requires |ip| == 4
    ensures Dotted(ip) == Decimal(ip[0]) + "." + Decimal(ip[1]) + "." + Dotted(ip[2..])
  {
    assert ip[1..][1..] == ip[2..];
    Nested(Decimal(ip[0]), Decimal(ip[1]), Dotted(ip[2..]));
  }

  lemma Nested(a: string, b: string, z: string)
    ensures a + "." + (b + "." + z) == a + "." + b + "." + z
  {}

  /** A masked match keeps its first two fields as they are written. */
  lemma ReplacementKeepsHead(m: string) returns (a: string, b: string, tail: string)
    requires Replacement(m) != m
    ensures Field(a) && Field(b)
    ensures Replacement(m) == a + "." + b + HIDDEN
    ensures m == a + "." + b + "." + tail
  {
    var ip := ParseIPv4(m).value;
    ParsedIsDotted(m, 3);
    TwoFields(ip);
    OctetOfByte(ip[0]);
    OctetOfByte(ip[1]);
    a, b, tail := Decimal(ip[0]), Decimal(ip[1]), Dotted(ip[2..]);
  }

  lemma {:induction false} DottedEndsInDigit(ip: seq<uint8>)
    requires ip != []
    ensures Dotted(ip) != [] && IsDigit(Dotted(ip)[|Dotted(ip)| - 1])
    decreases |ip|
  {
    OctetOfByte(ip[0]);
    if |ip| > 1 {
      DottedEndsInDigit(ip[1..]);
    }
  }
}
