/**
  Masking twice is masking once.
 */
module RedactionTheorems {
  import opened Wrappers
  import opened Redaction
  import opened RedactionProofs

  // ---------- One step of the rewriter ----------

  function FoundIn(afterWord: bool, s: string): seq<string> {
    Found(Scan(afterWord, s))
  }

  lemma CopyStep(w: bool, s: string)
    requires s != [] && MatchLength(w, s) == 0
    ensures Mask(w, s) == [s[0]] + Mask(IsWord(s[0]), s[1..])
    ensures FoundIn(w, s) == FoundIn(IsWord(s[0]), s[1..])
  {
    var ps := Scan(IsWord(s[0]), s[1..]);
    assert ([Outside(s[0])] + ps)[1..] == ps;
  }

  lemma MatchStep(w: bool, s: string)
    requires MatchLength(w, s) > 0
    ensures var n := MatchLength(w, s);
            && Mask(w, s) == Replacement(s[..n]) + Mask(true, s[n..])
            && FoundIn(w, s) == [s[..n]] + FoundIn(true, s[n..])
  {
    var n := MatchLength(w, s);
    var ps := Scan(true, s[n..]);
    assert ([Match(s[..n])] + ps)[1..] == ps;
  }

  /** After a word character the first character is copied. */
  lemma MaskAfterWord(s: string)
    ensures |Mask(true, s)| == 0 <==> s == []
    ensures s != [] ==> Mask(true, s)[0] == s[0]
  {
    if s != [] {
      CopyStep(true, s);
    }
  }

  // ---------- Input and output agree up to the first masked octet ----------

  /** The first `k` characters of the output are those of the input; there both end, or the
      output goes on with an x after a dot. */
  ghost predicate AgreeUpTo(s: string, t: string, k: nat) {
    && k <= |s| && k <= |t| && s[..k] == t[..k]
    && (|| k == |s| == |t|
        || (0 < k < |t| && t[k - 1] == '.' && t[k] == 'x'))
  }

  lemma AgreeShift(p: string, s: string, t: string, k: nat)
    requires AgreeUpTo(s, t, k)
    ensures AgreeUpTo(p + s, p + t, |p| + k)
  {
    assert (p + s)[..|p| + k] == p + s[..k];
    assert (p + t)[..|p| + k] == p + t[..k];
  }

  lemma AgreeMasked(a: string, b: string, tail: string, s: string, t: string) returns (k: nat)
    ensures AgreeUpTo(a + "." + b + "." + tail + s, a + "." + b + HIDDEN + t, k)
  {
    var head := a + "." + b + ".";
    k := |head|;
    assert a + "." + b + "." + tail + s == head + (tail + s);
    assert a + "." + b + HIDDEN + t == head + ("xxx.xxx" + t);
    assert (head + (tail + s))[..k] == head;
    assert (head + ("xxx.xxx" + t))[..k] == head;
  }

  lemma AgreeAtMatch(s: string, t: string, k: nat) returns (k': nat)
    requires QuadEnd(s, 0, 3) > 0 && AgreeUpTo(s[QuadEnd(s, 0, 3)..], t, k)
    ensures AgreeUpTo(s, Replacement(s[..QuadEnd(s, 0, 3)]) + t, k')
  {
    var n := QuadEnd(s, 0, 3);
    var m, rest := s[..n], s[n..];
    assert s == m + rest;
    if Replacement(m) == m {
      AgreeShift(m, rest, t, k);
      k' := n + k;
    } else {
      var a, b, tail := ReplacementKeepsHead(m);
      k' := AgreeMasked(a, b, tail, rest, t);
    }
  }

  lemma {:induction false} MaskAgrees(w: bool, s: string) returns (k: nat)
    ensures AgreeUpTo(s, Mask(w, s), k)
    decreases |s|
  {
    if s == [] {
      k := 0;
    } else if MatchLength(w, s) == 0 {
      var rest := s[1..];
      CopyStep(w, s);
      k := MaskAgrees(IsWord(s[0]), rest);
      AgreeShift([s[0]], rest, Mask(IsWord(s[0]), rest), k);
      assert s == [s[0]] + rest;
      k := 1 + k;
    } else {
      MatchStep(w, s);
      k := MaskAgrees(true, s[MatchLength(w, s)..]);
      k := AgreeAtMatch(s, Mask(true, s[MatchLength(w, s)..]), k);
    }
  }

  /** Masking creates no match: one at the front of the output was one of the input. */
  lemma NoNewMatch(w: bool, s: string, e: nat)
    requires QuadEnd(Mask(w, s), 0, 3) == e > 0
    ensures QuadEnd(s, 0, 3) == e
  {
    var t := Mask(w, s);
    var k := MaskAgrees(w, s);
    MatchCharacters(t, 0, 3, e);
    assert e <= k && (e == k ==> k == |s| == |t|);
    forall j | 0 <= j < k ensures s[j] == t[j] {
      assert s[j] == s[..k][j] && t[j] == t[..k][j];
    }
    MatchIsLocal(t, s, 0, 3, e);
  }

  // ---------- Scanning a masked match copies it ----------

  lemma FirstOfTwo(u: string, z: string)
    requires u != []
    ensures (u + z)[0] == u[0] && (u + z)[1..] == u[1..] + z
  {}

  lemma {:induction false} CopyWord(u: string, z: string)
    requires forall c <- u :: IsWord(c)
    ensures Mask(true, u + z) == u + Mask(true, z)
    ensures FoundIn(true, u + z) == FoundIn(true, z)
    decreases |u|
  {
    if u == [] {
      NothingBefore(z);
    } else {
      FirstOfTwo(u, z);
      CopyStep(true, u + z);
      CopyWord(u[1..], z);
      Prepend(u, Mask(true, z));
    }
  }

  lemma CopyFirstWord(u: string, z: string)
    requires u != [] && (forall c <- u :: IsWord(c))
    requires QuadEnd(u + z, 0, 3) == 0
    ensures Mask(false, u + z) == u + Mask(true, z)
    ensures FoundIn(false, u + z) == FoundIn(true, z)
  {
    var s, v := u + z, u[1..];
    assert s[1..] == v + z && s[0] == u[0];
    CopyStep(false, s);
    CopyWord(v, z);
    Prepend(u, Mask(true, z));
  }

  lemma Prepend(u: string, z: string)
    requires u != []
    ensures [u[0]] + (u[1..] + z) == u + z
  {
    assert u == [u[0]] + u[1..];
  }

  lemma CopyDot(z: string)
    ensures Mask(true, "." + z) == "." + Mask(false, z)
    ensures FoundIn(true, "." + z) == FoundIn(false, z)
  {
    CopyStep(true, "." + z);
    assert ("." + z)[1..] == z;
  }

  /** A word that starts no match is copied, and so is the dot after it. */
  lemma CopyWordAndDot(s: string, u: string, z: string)
    requires u != [] && (forall c <- u :: IsWord(c))
    requires s == u + "." + z && QuadEnd(s, 0, 3) == 0
    ensures Mask(false, s) == u + "." + Mask(false, z)
    ensures FoundIn(false, s) == FoundIn(false, z)
  {
    var rest := "." + z;
    assert s == u + rest;
    CopyFirstWord(u, rest);
    CopyDot(z);
    Regroup(u, Mask(false, z));
  }

  lemma Regroup(u: string, z: string)
    ensures u + "." + z == u + ("." + z)
  {}

  /** No match goes through an x in the place of a field. */
  lemma NoQuadAcross(f: string, z: string, dots: nat)
    requires Field(f) && dots > 0 && z != [] && z[0] == 'x'
    ensures QuadEnd(f + "." + z, 0, dots) == 0
  {
    var s := f + "." + z;
    RunIsGroup(s, 0, |f|);
    RunIsGroup(s, |f| + 1, |f| + 1);
  }

  lemma NoQuadAcrossTwo(f: string, g: string, z: string)
    requires Field(f) && Field(g) && z != [] && z[0] == 'x'
    ensures QuadEnd(f + "." + (g + "." + z), 0, 3) == 0
  {
    var s := f + "." + (g + "." + z);
    var k := |f| + 1;
    assert forall j :: 0 <= j < |g| ==> s[k + j] == g[j];
    RunIsGroup(s, 0, |f|);
    QuadStep(s, 0, |f|, 3);
    RunIsGroup(s, k, k + |g|);
    QuadStep(s, k, k + |g|, 2);
    RunIsGroup(s, k + |g| + 1, k + |g| + 1);
  }

  lemma FieldIsWord(f: string)
    requires Field(f)
    ensures forall c <- f :: IsWord(c)
  {}

  lemma CopyHidden(t: string)
    ensures Mask(false, "xxx.xxx" + t) == "xxx.xxx" + Mask(true, t)
    ensures FoundIn(false, "xxx.xxx" + t) == FoundIn(true, t)
  {
    var z := "xxx" + t;
    CopyFirstWord("xxx", t);
    assert "xxx.xxx" + t == "xxx" + "." + z;
    CopyWordAndDot("xxx.xxx" + t, "xxx", z);
  }

  lemma MaskedText(a: string, b: string, z: string)
    ensures a + "." + b + HIDDEN + z == a + "." + (b + "." + ("xxx.xxx" + z))
  {}

  lemma CopyMasked(a: string, b: string, t: string)
    requires Field(a) && Field(b)
    ensures Mask(false, a + "." + b + HIDDEN + t) == a + "." + b + HIDDEN + Mask(true, t)
    ensures FoundIn(false, a + "." + b + HIDDEN + t) == FoundIn(true, t)
  {
    var z2 := "xxx.xxx" + t;
    var z1 := b + "." + z2;
    CopyHidden(t);
    NoQuadAcross(b, z2, 3);
    FieldIsWord(b);
    CopyWordAndDot(z1, b, z2);
    NoQuadAcrossTwo(a, b, z2);
    FieldIsWord(a);
    CopyWordAndDot(a + "." + z1, a, z1);
    MaskedText(a, b, t);
    MaskedText(a, b, Mask(true, t));
  }

  // ---------- The theorem ----------

  lemma KeptStep(m: string, ms: seq<string>)
    ensures Kept([m] + ms) == (if Replacement(m) == m then [m] else []) + Kept(ms)
  {
    assert ([m] + ms)[1..] == ms;
  }

  /** A match that is left alone is found again in the output, with the same end. */
  lemma KeptMatchStays(s: string, n: nat)
    requires n == QuadEnd(s, 0, 3) > 0
    ensures QuadEnd(s[..n] + Mask(true, s[n..]), 0, 3) == n
  {
    MaskAfterWord(s[n..]);
    MatchCharacters(s, 0, 3, n);
    MatchIsLocal(s, s[..n] + Mask(true, s[n..]), 0, 3, n);
  }

  /** Scanning the output again changes nothing and finds, in order, exactly the matches
      that the first pass left alone. */
  lemma {:induction false} Rescan(w: bool, s: string)
    ensures Mask(w, Mask(w, s)) == Mask(w, s)
    ensures FoundIn(w, Mask(w, s)) == Kept(FoundIn(w, s))
    decreases |s|
  {
    var t := Mask(w, s);
    if s != [] {
      var n := MatchLength(w, s);
      if n == 0 {
        CopyStep(w, s);
        var t' := Mask(IsWord(s[0]), s[1..]);
        assert t[1..] == t';
        if MatchLength(w, t) > 0 {
          NoNewMatch(w, s, MatchLength(w, t));
        }
        CopyStep(w, t);
        Rescan(IsWord(s[0]), s[1..]);
      } else {
        MatchStep(w, s);
        var m, t' := s[..n], Mask(true, s[n..]);
        KeptStep(m, FoundIn(true, s[n..]));
        Rescan(true, s[n..]);
        if Replacement(m) == m {
          KeptMatchStays(s, n);
          assert t[..n] == m && t[n..] == t';
          MatchStep(w, t);
        } else {
          var a, b, tail := ReplacementKeepsHead(m);
          CopyMasked(a, b, t');
        }
      }
    }
  }

  /** maskIP is idempotent, and no maskable address is left for a second pass to find. */
  lemma MaskIPIdempotent(s: string)
    ensures MaskIP(MaskIP(s)) == MaskIP(s)
    ensures FoundIn(false, MaskIP(s)) == Kept(FoundIn(false, s))
    ensures forall m <- FoundIn(false, MaskIP(s)) :: Replacement(m) == m
  {
    Rescan(false, s);
    KeptAreKept(FoundIn(false, s));
  }

  lemma MaskableChanges(ip: seq<uint8>)
    requires |ip| == 4 && ip[0] != 127
    ensures Replacement(Dotted(ip)) != Dotted(ip)
  {
    var out := Replacement(Dotted(ip));
    ParseIffDotted(Dotted(ip), ip);
    assert out[|out| - 1] == HIDDEN[7] == 'x';
    DottedEndsInDigit(ip);
  }

  /** An address outside 127.0.0.0/8 in its usual notation. */
  ghost predicate Maskable(m: string) {
    exists ip :: |ip| == 4 && m == Dotted(ip) && ip[0] != 127
  }

  /** Exactly these are changed. */
  lemma ChangedIffMaskable(m: string)
    ensures Replacement(m) != m <==> Maskable(m)
  {
    if Replacement(m) != m {
      ParsedIsDotted(m, 3);
    }
    if Maskable(m) {
      var ip :| |ip| == 4 && m == Dotted(ip) && ip[0] != 127;
      MaskableChanges(ip);
    }
  }

  // ---------- Which texts change ----------

  lemma SamePrefix(a: string, x: string, y: string)
    ensures a + x == a + y <==> x == y
  {
    assert (a + x)[|a|..] == x && (a + y)[|a|..] == y;
  }

  lemma HiddenShows(a: string, b: string, tail: string, x: string, y: string)
    requires tail != "" && tail[0] != 'x'
    ensures a + "." + b + "." + tail + x != a + "." + b + HIDDEN + y
  {
    var head := a + "." + b + ".";
    var left, right := a + "." + b + "." + tail + x, a + "." + b + HIDDEN + y;
    assert left[|head|] == tail[0];
    assert right[|head|] == HIDDEN[1] == 'x';
  }

  lemma TailOfMatch(m: string, a: string, b: string, tail: string)
    requires QuadEnd(m, 0, 3) == |m| > 0 && m == a + "." + b + "." + tail
    ensures tail != "" && tail[0] != 'x'
  {
    var head := a + "." + b + ".";
    MatchCharacters(m, 0, 3, |m|);
    assert forall j :: 0 <= j < |head| ==> m[j] == head[j];
    assert forall j :: 0 <= j < |tail| ==> m[|head| + j] == tail[j];
  }

  /** A masked match differs from what it was within its own length. */
  lemma MaskedShows(m: string, x: string, y: string)
    requires QuadEnd(m, 0, 3) == |m| > 0 && Replacement(m) != m
    ensures m + x != Replacement(m) + y
  {
    var a, b, tail := ReplacementKeepsHead(m);
    TailOfMatch(m, a, b, tail);
    HiddenShows(a, b, tail, x, y);
  }

  lemma KeptOfFirst(m: string, ms: seq<string>)
    ensures (forall x <- [m] + ms :: Replacement(x) == x)
            <==> Replacement(m) == m && forall x <- ms :: Replacement(x) == x
  {
    var all := [m] + ms;
    assert m in all && forall x <- ms :: x in all;
  }

  lemma MatchKeepsIff(w: bool, s: string)
    requires MatchLength(w, s) > 0
    requires var z := s[MatchLength(w, s)..];
             Mask(true, z) == z <==> forall m <- FoundIn(true, z) :: Replacement(m) == m
    ensures Mask(w, s) == s <==> forall m <- FoundIn(w, s) :: Replacement(m) == m
  {
    var n := MatchLength(w, s);
    var m, z := s[..n], s[n..];
    MatchStep(w, s);
    KeptOfFirst(m, FoundIn(true, z));
    assert s == m + z;
    if Replacement(m) == m {
      SamePrefix(m, Mask(true, z), z);
    } else {
      MatchIsLocal(s, m, 0, 3, n);
      MaskedShows(m, z, Mask(true, z));
    }
  }

  /** A text is unchanged if and only if every match in it is left alone. */
  lemma {:induction false} MaskKeepsIff(w: bool, s: string)
    ensures Mask(w, s) == s <==> forall m <- FoundIn(w, s) :: Replacement(m) == m
    decreases |s|
  {
    if s != "" {
      var n := MatchLength(w, s);
      if n == 0 {
        CopyStep(w, s);
        MaskKeepsIff(IsWord(s[0]), s[1..]);
        assert s == [s[0]] + s[1..];
        SamePrefix([s[0]], Mask(IsWord(s[0]), s[1..]), s[1..]);
      } else {
        MaskKeepsIff(true, s[n..]);
        MatchKeepsIff(w, s);
      }
    }
  }

  /** No match in the text is an address outside 127.0.0.0/8. */
  ghost predicate Clean(s: string) {
    forall m <- FoundIn(false, s) :: !Maskable(m)
  }

  lemma MaskIPKeepsIff(s: string)
    ensures MaskIP(s) == s <==> Clean(s)
  {
    MaskKeepsIff(false, s);
    forall m | m in FoundIn(false, s) ensures Replacement(m) == m <==> !Maskable(m) {
      ChangedIffMaskable(m);
    }
  }

  lemma {:induction false} KeptAreKept(ms: seq<string>)
    ensures forall m <- Kept(ms) :: m in ms && Replacement(m) == m
    decreases |ms|
  {
    if ms != [] {
      KeptAreKept(ms[1..]);
    }
  }

  /** The text of the pieces as they stood in the input. */
  function Original(ps: seq<Piece>): string {
    if ps == [] then ""
    else (match ps[0] case Outside(c) => [c] case Match(m) => m) + Original(ps[1..])
  }

  lemma OriginalStep(p: Piece, ps: seq<Piece>)
    ensures Original([p] + ps) == (match p case Outside(c) => [c] case Match(m) => m) + Original(ps)
  {
    assert ([p] + ps)[1..] == ps;
  }

  /** The input is the concatenation of its pieces, so that masking, which renders the
      same pieces, changes nothing outside the matches. */
  lemma {:induction false} PiecesAreTheInput(w: bool, s: string)
    ensures Original(Scan(w, s)) == s
    decreases |s|
  {
    if s != [] {
      var n := MatchLength(w, s);
      if n == 0 {
        PiecesAreTheInput(IsWord(s[0]), s[1..]);
        OriginalStep(Outside(s[0]), Scan(IsWord(s[0]), s[1..]));
      } else {
        PiecesAreTheInput(true, s[n..]);
        OriginalStep(Match(s[..n]), Scan(true, s[n..]));
      }
    }
  }
}
