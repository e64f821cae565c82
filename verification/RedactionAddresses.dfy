/**
  The addresses that masking is about: those in the usual dotted notation.
 */
module RedactionAddresses {
  import opened Wrappers
  import opened Text
  import opened Redaction
  import opened RedactionProofs
  import opened RedactionTheorems

  /** The run of digits is the same in a suffix. */
  lemma {:induction false} RunEndOfSuffix(s: string, k: nat, i: nat)
    requires k + i <= |s|
    ensures RunEnd(s, k + i) == k + RunEnd(s[k..], i)
    decreases |s| - i
  {
    if k + i < |s| && IsDigit(s[k + i]) {
      RunEndOfSuffix(s, k, i + 1);
    }
  }

  lemma {:induction false} QuadEndOfSuffix(s: string, k: nat, i: nat, dots: nat)
    requires k + i <= |s|
    ensures QuadEnd(s, k + i, dots) == (if QuadEnd(s[k..], i, dots) == 0 then 0 else k + QuadEnd(s[k..], i, dots))
    decreases dots
  {
    var r := RunEnd(s[k..], i);
    RunEndOfSuffix(s, k, i);
    if dots > 0 && k + r < |s| {
      QuadEndOfSuffix(s, k, r + 1, dots - 1);
    }
  }

  /** A field and a dot before a shorter quad make a longer one. */
  lemma QuadGrows(f: string, rest: string, dots: nat)
    requires Field(f) && QuadEnd(rest, 0, dots) == |rest| > 0
    ensures QuadEnd(f + "." + rest, 0, dots + 1) == |f + "." + rest|
  {
    var s := f + "." + rest;
    FieldThenDot(f, rest);
    QuadStep(s, 0, |f|, dots + 1);
    QuadEndOfSuffix(s, |f| + 1, 0, dots);
  }

  /** An address in dotted notation is one match, from end to end. */
  lemma {:induction false} DottedIsMatch(ip: seq<uint8>)
    requires ip != []
    ensures QuadEnd(Dotted(ip), 0, |ip| - 1) == |Dotted(ip)| > 0
    decreases |ip|
  {
    var f := Decimal(ip[0]);
    OctetOfByte(ip[0]);
    if |ip| == 1 {
      RunIsGroup(f, 0, |f|);
    } else {
      var rest := Dotted(ip[1..]);
      DottedIsMatch(ip[1..]);
      assert Dotted(ip) == f + "." + rest;
      QuadGrows(f, rest, |ip| - 2);
    }
  }

  lemma WholeMatch(m: string)
    requires QuadEnd(m, 0, 3) == |m| > 0
    ensures MaskIP(m) == Replacement(m)
  {
    MatchStep(false, m);
    assert m[..|m|] == m && m[|m|..] == "";
    assert Mask(true, "") == "";
  }

  /** Masking an address hides its last two octets, unless it is in 127.0.0.0/8. */
  lemma AddressIsMasked(ip: seq<uint8>)
    requires |ip| == 4
    ensures MaskIP(Dotted(ip)) ==
              if ip[0] == 127 then Dotted(ip) else Decimal(ip[0]) + "." + Decimal(ip[1]) + ".xxx.xxx"
  {
    DottedIsMatch(ip);
    WholeMatch(Dotted(ip));
    ParseIffDotted(Dotted(ip), ip);
  }

  // ---------- Addresses in longer texts ----------

  /** No match reaches the last character of `pre`, and an address after it is a word of its
      own. */
  predicate EndsApart(pre: string) {
    pre == "" || (!IsWord(pre[|pre| - 1]) && pre[|pre| - 1] != '.')
  }

  predicate StartsApart(post: string) {
    post == "" || !IsWord(post[0])
  }

  /** Where the text before ends apart, matches in it are the same with any text after it. */
  lemma MatchStaysBefore(pre: string, z: string)
    requires pre != "" && EndsApart(pre)
    ensures QuadEnd(pre + z, 0, 3) == QuadEnd(pre, 0, 3) < |pre|
  {
    var s, last := pre + z, |pre| - 1;
    assert forall j :: 0 <= j < |pre| ==> s[j] == pre[j];
    var e := QuadEnd(s, 0, 3);
    if e > 0 {
      MatchCharacters(s, 0, 3, e);
      assert e <= last;
      MatchIsLocal(s, pre, 0, 3, e);
    }
    var e' := QuadEnd(pre, 0, 3);
    if e' > 0 {
      MatchCharacters(pre, 0, 3, e');
      assert e' <= last;
      MatchIsLocal(pre, s, 0, 3, e');
    }
  }

  lemma Dropped(a: string, b: string, n: nat)
    requires n <= |a|
    ensures (a + b)[..n] == a[..n] && (a + b)[n..] == a[n..] + b
  {}

  /** Masking `pre` and `z` together is masking them apart. */
  ghost predicate Splits(w: bool, pre: string, z: string) {
    && Mask(w, pre + z) == Mask(w, pre) + Mask(false, z)
    && FoundIn(w, pre + z) == FoundIn(w, pre) + FoundIn(false, z)
  }

  lemma SplitsAtMatch(w: bool, pre: string, z: string)
    requires var n := MatchLength(w, pre);
             n > 0 && n == MatchLength(w, pre + z) && Splits(true, pre[n..], z)
    ensures Splits(w, pre, z)
  {
    var n := MatchLength(w, pre);
    Dropped(pre, z, n);
    MatchStep(w, pre);
    MatchStep(w, pre + z);
    Assoc(Replacement(pre[..n]), Mask(true, pre[n..]), Mask(false, z));
    Assoc([pre[..n]], FoundIn(true, pre[n..]), FoundIn(false, z));
  }

  lemma SplitsAtCopy(w: bool, pre: string, z: string)
    requires pre != "" && MatchLength(w, pre) == MatchLength(w, pre + z) == 0
    requires Splits(IsWord(pre[0]), pre[1..], z)
    ensures Splits(w, pre, z)
  {
    Dropped(pre, z, 1);
    CopyStep(w, pre);
    CopyStep(w, pre + z);
    Assoc([pre[0]], Mask(IsWord(pre[0]), pre[1..]), Mask(false, z));
  }

  lemma SplitsAtStart(z: string)
    ensures Splits(false, "", z)
  {
    assert "" + z == z;
    assert Mask(false, "") == "" && FoundIn(false, "") == [];
    NothingBefore(Mask(false, z));
    NothingBefore(FoundIn(false, z));
  }

  /** Masking treats a text that ends apart and what follows it separately. */
  lemma {:induction false} MaskSplits(w: bool, pre: string, z: string)
    requires EndsApart(pre) && (pre == "" ==> !w)
    ensures Splits(w, pre, z)
    decreases |pre|
  {
    if pre == "" {
      SplitsAtStart(z);
    } else {
      MatchStaysBefore(pre, z);
      var n := MatchLength(w, pre);
      if n > 0 {
        MaskSplits(true, pre[n..], z);
        SplitsAtMatch(w, pre, z);
      } else {
        MaskSplits(IsWord(pre[0]), pre[1..], z);
        SplitsAtCopy(w, pre, z);
      }
    }
  }

  lemma QuadBefore(m: string, post: string)
    requires QuadEnd(m, 0, 3) == |m| > 0 && StartsApart(post)
    ensures QuadEnd(m + post, 0, 3) == |m|
  {
    MatchIsLocal(m, m + post, 0, 3, |m|);
  }

  lemma QuadFirst(m: string, post: string)
    requires QuadEnd(m, 0, 3) == |m| > 0 && StartsApart(post)
    ensures Mask(false, m + post) == Replacement(m) + Mask(true, post)
    ensures FoundIn(false, m + post) == [m] + FoundIn(true, post)
  {
    QuadBefore(m, post);
    MatchStep(false, m + post);
    Dropped(m, post, |m|);
  }

  /** An address in a text is found and masked where it stands, and splits the text, when the
      character before it is neither part of a word nor a dot, and the one after it is not
      part of a word: in "a.b.c.d/24", in "ip:port", in columns and in running text. */
  lemma AddressInContext(pre: string, ip: seq<uint8>, post: string)
    requires |ip| == 4 && EndsApart(pre) && StartsApart(post)
    ensures MaskIP(pre + (Dotted(ip) + post)) == MaskIP(pre) + (MaskIP(Dotted(ip)) + Mask(true, post))
    ensures FoundIn(false, pre + (Dotted(ip) + post)) == FoundIn(false, pre) + ([Dotted(ip)] + FoundIn(true, post))
  {
    DottedIsMatch(ip);
    WholeMatch(Dotted(ip));
    QuadFirst(Dotted(ip), post);
    MaskSplits(false, pre, Dotted(ip) + post);
  }

  /** Text without dots, such as a MAC address, is not masked. */
  lemma {:induction false} DotlessIsKept(w: bool, s: string)
    requires '.' !in s
    ensures Mask(w, s) == s
    decreases |s|
  {
    if s != [] {
      assert MatchLength(w, s) == 0;
      CopyStep(w, s);
      DotlessIsKept(IsWord(s[0]), s[1..]);
      assert s == [s[0]] + s[1..];
    }
  }

  lemma {:induction false} DottedLast(ip: seq<uint8>)
    requires |ip| >= 2
    ensures Dotted(ip) == Dotted(ip[..|ip| - 1]) + ("." + Decimal(ip[|ip| - 1]))
    decreases |ip|
  {
    var front, last := ip[..|ip| - 1], ip[|ip| - 1];
    if |ip| == 2 {
      assert ip[1..] == [last] && front == [ip[0]];
      Assoc(Decimal(ip[0]), ".", Decimal(last));
    } else {
      DottedLast(ip[1..]);
      assert ip[1..][..|ip| - 2] == front[1..];
      Assoc(Decimal(ip[0]) + ".", Dotted(front[1..]), "." + Decimal(last));
    }
  }

  lemma FieldMatch(f: string, ip: seq<uint8>)
    requires Field(f) && ParseOctet(f).None? && |ip| == 3
    ensures var m := f + "." + Dotted(ip); QuadEnd(m, 0, 3) == |m| > 0 && Replacement(m) == m
  {
    DottedIsMatch(ip);
    QuadGrows(f, Dotted(ip), 2);
    FieldThenDot(f, Dotted(ip));
  }

  /** A family of addresses that survive: those after a number that is no octet, such as
      10.0.0.1 in "999.10.0.0.1". */
  lemma OverlappedAddressSurvives(f: string, ip: seq<uint8>)
    requires Field(f) && ParseOctet(f).None? && |ip| == 4
    ensures MaskIP(f + "." + Dotted(ip)) == f + "." + Dotted(ip)
  {
    var m, d := f + "." + Dotted(ip[..3]), Decimal(ip[3]);
    FieldMatch(f, ip[..3]);
    OctetOfByte(ip[3]);
    DottedLast(ip);
    Assoc(f + ".", Dotted(ip[..3]), "." + d);
    QuadFirst(m, "." + d);
    CopyDot(d);
    DotlessIsKept(false, d);
  }
}
