/**
  The characters that decide whether an address is masked, written out, and the forms in
  which addresses come.
 */
module RedactionCharacters {
  import opened Wrappers
  import opened Text
  import opened Redaction
  import opened RedactionProofs
  import opened RedactionTheorems
  import opened RedactionAddresses
  import opened RedactionPlaces

  /** The word characters of Go's regular expressions. */
  predicate WordCharacter(c: char) {
    '0' <= c <= '9' || 'A' <= c <= 'Z' || 'a' <= c <= 'z' || c == '_'
  }

  // ---------- Separators ----------

  predicate Separator(c: char) {
    !WordCharacter(c) && c != '.'
  }

  lemma MatchBeforeSeparator(x: string, c: char, y: string)
    requires Separator(c)
    ensures QuadEnd(x + ([c] + y), 0, 3) == QuadEnd(x, 0, 3)
  {
    var s := x + ([c] + y);
    assert s[|x|] == c && forall j :: 0 <= j < |x| ==> s[j] == x[j];
    var e, e' := QuadEnd(s, 0, 3), QuadEnd(x, 0, 3);
    if e > 0 {
      MatchCharacters(s, 0, 3, e);
      assert e <= |x|;
      MatchIsLocal(s, x, 0, 3, e);
    }
    if e' > 0 {
      MatchCharacters(x, 0, 3, e');
      MatchIsLocal(x, s, 0, 3, e');
    }
  }

  ghost predicate SplitsAround(w: bool, x: string, c: char, y: string) {
    Mask(w, x + ([c] + y)) == Mask(w, x) + ([c] + MaskIP(y))
  }

  lemma AroundStart(w: bool, c: char, y: string)
    requires Separator(c)
    ensures SplitsAround(w, "", c, y)
  {
    var s := [c] + y;
    assert "" + s == s && s[1..] == y;
    assert RunEnd(s, 0) == 0;
    CopyStep(w, s);
    assert Mask(w, "") == "";
    NothingBefore([c] + MaskIP(y));
  }

  lemma AroundMatch(w: bool, x: string, c: char, y: string)
    requires MatchLength(w, x) > 0 && MatchLength(w, x + ([c] + y)) == MatchLength(w, x)
    requires SplitsAround(true, x[MatchLength(w, x)..], c, y)
    ensures SplitsAround(w, x, c, y)
  {
    var n := MatchLength(w, x);
    Dropped(x, [c] + y, n);
    MatchStep(w, x);
    MatchStep(w, x + ([c] + y));
    Assoc(Replacement(x[..n]), Mask(true, x[n..]), [c] + MaskIP(y));
  }

  lemma AroundCopy(w: bool, x: string, c: char, y: string)
    requires x != "" && MatchLength(w, x) == MatchLength(w, x + ([c] + y)) == 0
    requires SplitsAround(IsWord(x[0]), x[1..], c, y)
    ensures SplitsAround(w, x, c, y)
  {
    Dropped(x, [c] + y, 1);
    CopyStep(w, x);
    CopyStep(w, x + ([c] + y));
    Assoc([x[0]], Mask(IsWord(x[0]), x[1..]), [c] + MaskIP(y));
  }

  /** Every character that is neither a word character nor a dot separates: what stands before
      it and after it is masked apart. */
  lemma {:induction false} SeparatorSplits(w: bool, x: string, c: char, y: string)
    requires Separator(c)
    ensures SplitsAround(w, x, c, y)
    decreases |x|
  {
    if x == "" {
      AroundStart(w, c, y);
    } else {
      MatchBeforeSeparator(x, c, y);
      var n := MatchLength(w, x);
      if n > 0 {
        SeparatorSplits(true, x[n..], c, y);
        AroundMatch(w, x, c, y);
      } else {
        SeparatorSplits(IsWord(x[0]), x[1..], c, y);
        AroundCopy(w, x, c, y);
      }
    }
  }

  /** Texts with blanks, such as the lines of a table, are masked between the blanks. */
  lemma BlankForm(x: string, y: string)
    ensures MaskIP(x + (" " + y)) == MaskIP(x) + (" " + MaskIP(y))
  {
    SeparatorSplits(false, x, ' ', y);
  }

  lemma NumberIsKept(n: nat)
    ensures MaskIP(Decimal(n)) == Decimal(n)
  {
    DecimalRoundTrip(n);
    DotlessIsKept(false, Decimal(n));
  }

  /** An address with a port keeps the port. */
  lemma PortForm(ip: seq<uint8>, port: nat)
    requires |ip| == 4
    ensures MaskIP(Dotted(ip) + (":" + Decimal(port))) == MaskIP(Dotted(ip)) + (":" + Decimal(port))
  {
    SeparatorSplits(false, Dotted(ip), ':', Decimal(port));
    NumberIsKept(port);
  }

  /** A block in CIDR notation keeps its prefix length. */
  lemma BlockForm(ip: seq<uint8>, prefix: nat)
    requires |ip| == 4
    ensures MaskIP(Dotted(ip) + ("/" + Decimal(prefix))) == MaskIP(Dotted(ip)) + ("/" + Decimal(prefix))
  {
    SeparatorSplits(false, Dotted(ip), '/', Decimal(prefix));
    NumberIsKept(prefix);
  }

  /** A number of more than three digits is no field, and hides no address after it. */
  lemma LongNumberIsNoField(f: string, ip: seq<uint8>)
    requires |f| >= 4 && AllDigits(f) && |ip| == 4
    ensures MaskIP(f + "." + Dotted(ip)) == f + "." + MaskIP(Dotted(ip))
  {
    var s := f + "." + Dotted(ip);
    RunIsGroup(s, 0, |f|);
    CopyWordAndDot(s, f, Dotted(ip));
  }

  // ---------- The character after an address ----------

  /** What masking makes of an address outside 127.0.0.0/8. */
  function Masked(ip: seq<uint8>): string
    requires |ip| == 4
  {
    Decimal(ip[0]) + "." + Decimal(ip[1]) + ".xxx.xxx"
  }

  lemma AddressBeforeBoundary(ip: seq<uint8>, c: char, z: string)
    requires |ip| == 4 && ip[0] != 127 && !WordCharacter(c)
    ensures Masked(ip) + [c] <= MaskIP(Dotted(ip) + ([c] + z))
  {
    DottedIsMatch(ip);
    WholeMatch(Dotted(ip));
    AddressIsMasked(ip);
    QuadFirst(Dotted(ip), [c] + z);
    MaskAfterWord([c] + z);
  }

  /** Masking keeps the first character of a text. */
  lemma FirstIsKept(w: bool, x: string)
    requires x != ""
    ensures Mask(w, x) != "" && Mask(w, x)[0] == x[0]
  {
    if MatchLength(w, x) == 0 {
      CopyStep(w, x);
    } else {
      var m := x[..MatchLength(w, x)];
      MatchStep(w, x);
      if Replacement(m) != m {
        var a, b, tail := ReplacementKeepsHead(m);
      }
    }
  }

  lemma FirstDot(m: string, p: nat, q: nat)
    requires p < |m| && q < |m| && m[p] == m[q] == '.'
    requires (forall j :: 0 <= j < p ==> IsDigit(m[j])) && (forall j :: 0 <= j < q ==> IsDigit(m[j]))
    ensures p == q
  {}

  lemma AfterDot(a: string, b: string, z: string)
    requires Field(a) && Field(b)
    ensures var t := a + "." + b + z; t[..|a|] == a && t[|a|] == '.' && t[|a| + 1] == b[0]
  {}

  /** What is masked keeps its first field, the dot, and the digit after it. */
  lemma HiddenKeepsField(m: string, a: string, b: string, tail: string, f: string, d: char)
    requires Field(a) && Field(b) && m == a + "." + b + "." + tail
    requires Field(f) && f + "." + [d] <= m
    ensures f + "." + [d] <= a + "." + b + HIDDEN
  {
    assert m == a + "." + b + ("." + tail);
    AfterDot(a, b, "." + tail);
    AfterDot(a, b, HIDDEN);
    assert m[|f|] == (f + "." + [d])[|f|] && m[|f| + 1] == (f + "." + [d])[|f| + 1];
    assert forall j :: 0 <= j < |a| ==> m[j] == m[..|a|][j];
    assert forall j :: 0 <= j < |f| ==> m[j] == (f + "." + [d])[j];
    FirstDot(m, |a|, |f|);
    assert f == a;
  }

  lemma MatchKeepsField(m: string, f: string, d: char)
    requires Field(f) && f + "." + [d] <= m
    ensures f + "." + [d] <= Replacement(m)
  {
    if Replacement(m) != m {
      var a, b, tail := ReplacementKeepsHead(m);
      HiddenKeepsField(m, a, b, tail, f, d);
    }
  }

  lemma MatchedFieldIsKept(f: string, rest: string, s: string, n: nat)
    requires Field(f) && rest != "" && s == f + "." + rest && QuadEnd(s, 0, 3) == n > 0
    ensures f + "." + [rest[0]] <= MaskIP(s)
  {
    MatchTakesField(f, rest, s, n);
    MatchKeepsField(s[..n], f, rest[0]);
    MatchStep(false, s);
    assert Replacement(s[..n]) <= MaskIP(s);
  }

  lemma MatchTakesField(f: string, rest: string, s: string, n: nat)
    requires Field(f) && rest != "" && s == f + "." + rest && QuadEnd(s, 0, 3) == n > 0
    ensures n <= |s| && f + "." + [rest[0]] <= s[..n]
  {
    FieldThenDot(f, rest);
    QuadStep(s, 0, |f|, 3);
    assert s[|f| + 1] == rest[0];
  }

  /** A field at the front is kept with its dot and the digit after it. */
  lemma FieldIsKept(f: string, rest: string)
    requires Field(f) && rest != "" && IsDigit(rest[0])
    ensures f + "." + [rest[0]] <= MaskIP(f + "." + rest)
  {
    var s := f + "." + rest;
    if QuadEnd(s, 0, 3) == 0 {
      FieldIsWord(f);
      CopyWordAndDot(s, f, rest);
      FirstIsKept(false, rest);
    } else {
      MatchedFieldIsKept(f, rest, s, QuadEnd(s, 0, 3));
    }
  }

  /** If no match starts at the address, its third octet shows. */
  lemma UnmatchedShowsThird(ip: seq<uint8>, x: string)
    requires |ip| == 4 && QuadEnd(Dotted(ip) + x, 0, 3) == 0
    ensures var j := |Decimal(ip[0])| + |Decimal(ip[1])| + 2;
            j < |MaskIP(Dotted(ip) + x)| && IsDigit(MaskIP(Dotted(ip) + x)[j])
  {
    var a, b, rest := Decimal(ip[0]), Decimal(ip[1]), Dotted(ip[2..]) + x;
    OctetOfByte(ip[0]);
    OctetOfByte(ip[1]);
    TwoFields(ip);
    FirstOfDotted(ip[2..]);
    assert Dotted(ip) + x == a + "." + (b + "." + rest);
    FieldIsWord(a);
    CopyWordAndDot(Dotted(ip) + x, a, b + "." + rest);
    FieldIsKept(b, rest);
  }

  lemma FirstOfDotted(ip: seq<uint8>)
    requires ip != []
    ensures Dotted(ip) != "" && IsDigit(Dotted(ip)[0])
  {
    OctetOfByte(ip[0]);
  }

  lemma FirstX(a: string, b: string)
    requires Field(a) && Field(b)
    ensures var t, p := a + "." + b + HIDDEN, |a| + |b| + 2;
            p < |t| && t[p] == 'x' && forall j :: 0 <= j < p ==> t[j] != 'x'
  {
    var t, p := a + "." + b + HIDDEN, |a| + |b| + 2;
    forall j | 0 <= j < p ensures t[j] != 'x' {
      if j < |a| {
        assert t[j] == a[j] && a[j] in a;
      } else if |a| < j < |a| + 1 + |b| {
        assert t[j] == b[j - |a| - 1] && b[j - |a| - 1] in b;
      }
    }
  }

  /** Two masked texts at the front of one text are of one length. */
  lemma SameFirstX(out: string, a: string, b: string, a': string, b': string)
    requires Field(a) && Field(b) && Field(a') && Field(b')
    requires a + "." + b + HIDDEN <= out && a' + "." + b' + HIDDEN <= out
    ensures |a| + |b| == |a'| + |b'|
  {
    var left, right := a + "." + b + HIDDEN, a' + "." + b' + HIDDEN;
    FirstX(a, b);
    FirstX(a', b');
    assert forall j :: 0 <= j < |left| ==> out[j] == left[j];
    assert forall j :: 0 <= j < |right| ==> out[j] == right[j];
  }

  lemma AfterMasked(out: string, r: string, rest: string, l: string, c: char)
    requires out == r + rest && l + [c] <= out && |l| == |r|
    ensures rest != "" && rest[0] == c
  {
    assert out[|l|] == (l + [c])[|l|] == c;
  }

  /** If a match that is masked starts at the address, no word character follows it. */
  lemma MaskedMatchEnds(ip: seq<uint8>, s: string, n: nat, m: string, c: char)
    requires |ip| == 4 && QuadEnd(s, 0, 3) == n > 0 && m == s[..n] && Replacement(m) != m && IsWord(c)
    ensures !(Masked(ip) + [c] <= MaskIP(s))
  {
    MatchStep(false, s);
    MatchCharacters(s, 0, 3, n);
    if Masked(ip) + [c] <= MaskIP(s) {
      var a, b, tail := ReplacementKeepsHead(m);
      var rest := Mask(true, s[n..]);
      OctetOfByte(ip[0]);
      OctetOfByte(ip[1]);
      assert Masked(ip) <= Masked(ip) + [c];
      SameFirstX(MaskIP(s), Decimal(ip[0]), Decimal(ip[1]), a, b);
      AfterMasked(MaskIP(s), Replacement(m), rest, Masked(ip), c);
      MaskAfterWord(s[n..]);
    }
  }

  /** If a match that is left alone starts at the address, the third octet shows. */
  lemma KeptMatchShowsThird(ip: seq<uint8>, x: string, n: nat)
    requires |ip| == 4 && QuadEnd(Dotted(ip) + x, 0, 3) == n > 0
    requires Replacement((Dotted(ip) + x)[..n]) == (Dotted(ip) + x)[..n]
    ensures var j := |Decimal(ip[0])| + |Decimal(ip[1])| + 2;
            j < |MaskIP(Dotted(ip) + x)| && IsDigit(MaskIP(Dotted(ip) + x)[j])
  {
    var s := Dotted(ip) + x;
    MatchStep(false, s);
    MatchIsLong(ip, x, n);
  }

  /** A match goes through a field at the front and its dot. */
  lemma FieldBeforeQuad(f: string, y: string, dots: nat)
    requires Field(f) && QuadEnd(f + "." + y, 0, dots + 1) > 0
    ensures QuadEnd(y, 0, dots) > 0 && QuadEnd(f + "." + y, 0, dots + 1) == |f| + 1 + QuadEnd(y, 0, dots)
  {
    var s := f + "." + y;
    FieldThenDot(f, y);
    QuadStep(s, 0, |f|, dots + 1);
    QuadEndOfSuffix(s, |f| + 1, 0, dots);
  }

  /** A match that starts at the address takes in its third octet. */
  lemma MatchIsLong(ip: seq<uint8>, x: string, n: nat)
    requires |ip| == 4 && QuadEnd(Dotted(ip) + x, 0, 3) == n > 0
    ensures var j := |Decimal(ip[0])| + |Decimal(ip[1])| + 2;
            j < n <= |Dotted(ip) + x| && IsDigit((Dotted(ip) + x)[j])
  {
    var s, a, b, rest := Dotted(ip) + x, Decimal(ip[0]), Decimal(ip[1]), Dotted(ip[2..]) + x;
    OctetOfByte(ip[0]);
    OctetOfByte(ip[1]);
    TwoFields(ip);
    FirstOfDotted(ip[2..]);
    assert s == a + "." + (b + "." + rest);
    FieldBeforeQuad(a, b + "." + rest, 2);
    FieldBeforeQuad(b, rest, 1);
  }

  lemma ThirdIsNoX(ip: seq<uint8>, out: string, c: char)
    requires |ip| == 4
    requires var j := |Decimal(ip[0])| + |Decimal(ip[1])| + 2; j < |out| && IsDigit(out[j])
    ensures !(Masked(ip) + [c] <= out)
  {
    var j := |Decimal(ip[0])| + |Decimal(ip[1])| + 2;
    assert (Masked(ip) + [c])[j] == 'x';
  }

  lemma AddressBeforeWord(ip: seq<uint8>, c: char, z: string)
    requires |ip| == 4 && WordCharacter(c)
    ensures !(Masked(ip) + [c] <= MaskIP(Dotted(ip) + ([c] + z)))
  {
    var x := [c] + z;
    var s := Dotted(ip) + x;
    var n := QuadEnd(s, 0, 3);
    if n == 0 {
      UnmatchedShowsThird(ip, x);
      ThirdIsNoX(ip, MaskIP(s), c);
    } else if Replacement(s[..n]) == s[..n] {
      KeptMatchShowsThird(ip, x, n);
      ThirdIsNoX(ip, MaskIP(s), c);
    } else {
      MaskedMatchEnds(ip, s, n, s[..n], c);
    }
  }

  /** An address is masked before every character but the letters, the digits and the
      underscore, and before none of these. */
  lemma MaskedBeforeIff(ip: seq<uint8>, c: char, z: string)
    requires |ip| == 4 && ip[0] != 127
    ensures Decimal(ip[0]) + "." + Decimal(ip[1]) + ".xxx.xxx" + [c] <= MaskIP(Dotted(ip) + ([c] + z))
            <==> !('0' <= c <= '9' || 'A' <= c <= 'Z' || 'a' <= c <= 'z' || c == '_')
  {
    if WordCharacter(c) {
      AddressBeforeWord(ip, c, z);
    } else {
      AddressBeforeBoundary(ip, c, z);
    }
  }

  // ---------- The character before an address ----------

  lemma OpenIsNotCrossed(pre: string, rest: string)
    requires pre != "" && !IsWord(pre[|pre| - 1]) && pre[|pre| - 1] != '.'
    ensures !Crossed(false, pre + rest, |pre|)
  {
    if Crossed(false, pre + rest, |pre|) {
      CrossedAfterDot(false, pre + rest, |pre|);
    }
  }

  lemma FoundAfterSeparator(pre: string, m: string, post: string)
    requires QuadEnd(m, 0, 3) == |m| > 0 && StartsApart(post)
    requires pre != "" && !IsWord(pre[|pre| - 1]) && pre[|pre| - 1] != '.'
    ensures FoundBetween(false, pre + (m + post), |pre|, |pre| + |m|)
  {
    QuadIsFoundIff(pre, m, post);
    OpenIsNotCrossed(pre, m + post);
  }

  lemma NotFoundAfterWord(pre: string, m: string, post: string)
    requires QuadEnd(m, 0, 3) == |m| > 0 && pre != "" && IsWord(pre[|pre| - 1])
    ensures !FoundBetween(false, pre + (m + post), |pre|, |pre| + |m|)
  {
    QuadIsFoundIff(pre, m, post);
  }

  /** After a dot it depends on the text before; after every other character an address, with
      no part of a word after it, is a match of its own exactly unless that character is a
      letter, a digit or the underscore. */
  lemma FoundAfterIff(pre: string, c: char, ip: seq<uint8>, post: string)
    requires |ip| == 4 && pre != "" && pre[|pre| - 1] == c != '.' && StartsApart(post)
    ensures FoundBetween(false, pre + (Dotted(ip) + post), |pre|, |pre| + |Dotted(ip)|)
            <==> !('0' <= c <= '9' || 'A' <= c <= 'Z' || 'a' <= c <= 'z' || c == '_')
  {
    DottedIsMatch(ip);
    if IsWord(c) {
      NotFoundAfterWord(pre, Dotted(ip), post);
    } else {
      FoundAfterSeparator(pre, Dotted(ip), post);
    }
  }
}
