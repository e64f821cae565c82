/**
  Where the scan finds its matches, and so exactly which addresses are masked.
 */
module RedactionPlaces {
  import opened Wrappers
  import opened Text
  import opened Redaction
  import opened RedactionProofs
  import opened RedactionTheorems
  import opened RedactionAddresses

  // ---------- Places of matches ----------

  /** The length of the first piece of the scan, and whether it ends in a word character. */
  function Taken(w: bool, s: string): (n: nat)
    requires s != ""
    ensures 1 <= n <= |s|
  {
    if MatchLength(w, s) == 0 then 1 else MatchLength(w, s)
  }

  function After(w: bool, s: string): bool
    requires s != ""
  {
    MatchLength(w, s) > 0 || IsWord(s[0])
  }

  lemma AfterIsLast(w: bool, s: string)
    requires s != ""
    ensures After(w, s) == IsWord(s[Taken(w, s) - 1])
  {
    if MatchLength(w, s) > 0 {
      MatchCharacters(s, 0, 3, MatchLength(w, s));
    }
  }

  /** The scan finds the match s[i..e]. */
  predicate FoundBetween(w: bool, s: string, i: nat, e: nat)
    decreases |s|
  {
    s != "" && i < e <= |s| &&
    if i == 0 then MatchLength(w, s) == e
    else i >= Taken(w, s) && FoundBetween(After(w, s), s[Taken(w, s)..], i - Taken(w, s), e - Taken(w, s))
  }

  lemma SliceOfRest(s: string, m: nat, i: nat, e: nat)
    requires m <= i <= e <= |s|
    ensures s[m..][i - m..e - m] == s[i..e]
  {}

  lemma FoundLater(w: bool, s: string, x: string)
    requires s != "" && x in FoundIn(After(w, s), s[Taken(w, s)..])
    ensures x in FoundIn(w, s)
  {
    if MatchLength(w, s) == 0 {
      CopyStep(w, s);
    } else {
      MatchStep(w, s);
    }
  }

  /** What is found at a place is one of the matches of the scan. */
  lemma {:induction false} FoundIsMatch(w: bool, s: string, i: nat, e: nat)
    requires FoundBetween(w, s, i, e)
    ensures s[i..e] in FoundIn(w, s)
    decreases |s|
  {
    if i == 0 {
      MatchStep(w, s);
    } else {
      var m := Taken(w, s);
      FoundIsMatch(After(w, s), s[m..], i - m, e - m);
      SliceOfRest(s, m, i, e);
      FoundLater(w, s, s[i..e]);
    }
  }

  lemma {:induction false} FoundCharacters(w: bool, s: string, i: nat, e: nat, k: nat)
    requires FoundBetween(w, s, i, e) && i <= k < e
    ensures IsDigit(s[k]) || s[k] == '.'
    decreases |s|
  {
    if i == 0 {
      MatchCharacters(s, 0, 3, MatchLength(w, s));
    } else {
      var m := Taken(w, s);
      FoundCharacters(After(w, s), s[m..], i - m, e - m, k - m);
    }
  }

  /** A match of the scan starts before place `k` and ends after it. */
  ghost predicate Crossed(w: bool, s: string, k: nat) {
    exists i: nat, e: nat :: i < k < e && FoundBetween(w, s, i, e)
  }

  lemma CrossedLater(w: bool, s: string, k: nat)
    requires s != "" && Taken(w, s) <= k
    requires Crossed(After(w, s), s[Taken(w, s)..], k - Taken(w, s))
    ensures Crossed(w, s, k)
  {
    var m := Taken(w, s);
    var i: nat, e: nat :| i < k - m < e && FoundBetween(After(w, s), s[m..], i, e);
    assert FoundBetween(w, s, m + i, m + e);
  }

  /** A place is crossed only within dots and digits. */
  lemma CrossedAfterDot(w: bool, s: string, k: nat)
    requires 0 < k <= |s| && Crossed(w, s, k) && !IsWord(s[k - 1])
    ensures s[k - 1] == '.'
  {
    var i: nat, e: nat :| i < k < e && FoundBetween(w, s, i, e);
    FoundCharacters(w, s, i, e, k - 1);
  }

  lemma FoundFirst(w: bool, s: string, k: nat)
    requires s != "" && 0 < k < Taken(w, s)
    ensures Crossed(w, s, k)
  {
    assert FoundBetween(w, s, 0, Taken(w, s));
  }

  ghost predicate FoundOr(w: bool, s: string, k: nat, n: nat) {
    FoundBetween(w, s, k, k + n) || Crossed(w, s, k)
  }

  lemma FoundOrLater(w: bool, pre: string, rest: string, n: nat)
    requires pre != "" && n > 0 && Taken(w, pre + rest) <= |pre|
    requires var m := Taken(w, pre + rest); FoundOr(After(w, pre + rest), pre[m..] + rest, |pre| - m, n)
    ensures FoundOr(w, pre + rest, |pre|, n)
  {
    Dropped(pre, rest, Taken(w, pre + rest));
    if Crossed(After(w, pre + rest), pre[Taken(w, pre + rest)..] + rest, |pre| - Taken(w, pre + rest)) {
      CrossedLater(w, pre + rest, |pre|);
    }
  }

  /** Where a scan in state `w` stands, no word character comes before what follows `pre`. */
  predicate OpenAfter(w: bool, pre: string) {
    if pre == "" then !w else !IsWord(pre[|pre| - 1])
  }

  lemma OpenLater(w: bool, pre: string, rest: string)
    requires pre != "" && Taken(w, pre + rest) <= |pre| && OpenAfter(w, pre)
    ensures OpenAfter(After(w, pre + rest), pre[Taken(w, pre + rest)..])
  {
    AfterIsLast(w, pre + rest);
  }

  /** A quad that no word character precedes is found by the scan, or crossed by a match that
      is. */
  lemma {:induction false} FoundOrCrossed(w: bool, pre: string, rest: string, n: nat)
    requires n == MatchLength(false, rest) > 0 && OpenAfter(w, pre)
    ensures FoundOr(w, pre + rest, |pre|, n)
    decreases |pre|
  {
    if pre == "" {
      assert pre + rest == rest;
    } else if |pre| < Taken(w, pre + rest) {
      FoundFirst(w, pre + rest, |pre|);
    } else {
      OpenLater(w, pre, rest);
      FoundOrCrossed(After(w, pre + rest), pre[Taken(w, pre + rest)..], rest, n);
      FoundOrLater(w, pre, rest, n);
    }
  }

  lemma Middle(pre: string, m: string, post: string)
    ensures (pre + (m + post))[|pre|..|pre| + |m|] == m
  {}

  lemma FoundBetweenTexts(pre: string, m: string, post: string)
    requires FoundBetween(false, pre + (m + post), |pre|, |pre| + |m|)
    ensures m in FoundIn(false, pre + (m + post))
  {
    FoundIsMatch(false, pre + (m + post), |pre|, |pre| + |m|);
    Middle(pre, m, post);
  }

  lemma AddressIsFoundOrCrossed(pre: string, m: string, post: string)
    requires QuadEnd(m, 0, 3) == |m| > 0 && StartsApart(post)
    requires OpenAfter(false, pre)
    ensures m in FoundIn(false, pre + (m + post)) || Crossed(false, pre + (m + post), |pre|)
  {
    QuadBefore(m, post);
    FoundOrCrossed(false, pre, m + post, |m|);
    if !Crossed(false, pre + (m + post), |pre|) {
      FoundBetweenTexts(pre, m, post);
    }
  }

  /** A maskable address that stands apart is found, and then changed, or crossed. */
  lemma MaskableIsCrossed(pre: string, ip: seq<uint8>, post: string)
    requires |ip| == 4 && ip[0] != 127
    requires forall m <- FoundIn(false, pre + (Dotted(ip) + post)) :: Replacement(m) == m
    requires StartsApart(post) && OpenAfter(false, pre)
    ensures Crossed(false, pre + (Dotted(ip) + post), |pre|)
  {
    DottedIsMatch(ip);
    AddressIsFoundOrCrossed(pre, Dotted(ip), post);
    MaskableChanges(ip);
  }

  // ---------- Exactly which addresses are masked ----------

  /** What the scan finds stands apart. */
  lemma {:induction false} FoundStandsApart(w: bool, s: string, i: nat, e: nat)
    requires FoundBetween(w, s, i, e)
    ensures if i == 0 then !w else !IsWord(s[i - 1])
    ensures e == |s| || !IsWord(s[e])
    decreases |s|
  {
    if i == 0 {
      MatchCharacters(s, 0, 3, e);
    } else {
      var m := Taken(w, s);
      AfterIsLast(w, s);
      FoundStandsApart(After(w, s), s[m..], i - m, e - m);
    }
  }

  /** Two matches of one scan do not overlap. */
  lemma {:induction false} FoundIsDisjoint(w: bool, s: string, i: nat, e: nat, k: nat, f: nat)
    requires FoundBetween(w, s, i, e) && FoundBetween(w, s, k, f) && i < k
    ensures e <= k
    decreases |s|
  {
    if i > 0 {
      var m := Taken(w, s);
      FoundIsDisjoint(After(w, s), s[m..], i - m, e - m, k - m, f - m);
    }
  }

  lemma FoundIsNotCrossed(w: bool, s: string, k: nat, f: nat)
    requires FoundBetween(w, s, k, f)
    ensures !Crossed(w, s, k)
  {
    if Crossed(w, s, k) {
      var i: nat, e: nat :| i < k < e && FoundBetween(w, s, i, e);
      FoundIsDisjoint(w, s, i, e, k, f);
    }
  }

  lemma FoundTextStandsApart(pre: string, m: string, post: string)
    requires FoundBetween(false, pre + (m + post), |pre|, |pre| + |m|)
    ensures OpenAfter(false, pre) && StartsApart(post)
  {
    var s := pre + (m + post);
    FoundStandsApart(false, s, |pre|, |pre| + |m|);
    assert pre != "" ==> s[|pre| - 1] == pre[|pre| - 1];
    assert post != "" ==> s[|pre| + |m|] == post[0];
  }

  /** A dotted quad in a text is one of the matches if and only if no part of a word comes
      before it or after it, and no match that begins earlier runs over its first digit. */
  lemma QuadIsFoundIff(pre: string, m: string, post: string)
    requires QuadEnd(m, 0, 3) == |m| > 0
    ensures FoundBetween(false, pre + (m + post), |pre|, |pre| + |m|)
            <==> OpenAfter(false, pre) && StartsApart(post) && !Crossed(false, pre + (m + post), |pre|)
  {
    if FoundBetween(false, pre + (m + post), |pre|, |pre| + |m|) {
      FoundIsNotCrossed(false, pre + (m + post), |pre|, |pre| + |m|);
      FoundTextStandsApart(pre, m, post);
    }
    if OpenAfter(false, pre) && StartsApart(post) {
      QuadBefore(m, post);
      FoundOrCrossed(false, pre, m + post, |m|);
    }
  }

  /** What the first piece of the scan becomes. */
  function FirstMasked(w: bool, s: string): string
    requires s != ""
  {
    if MatchLength(w, s) == 0 then [s[0]] else Replacement(s[..MatchLength(w, s)])
  }

  lemma MaskOfFirst(w: bool, s: string)
    requires s != ""
    ensures Mask(w, s) == FirstMasked(w, s) + Mask(After(w, s), s[Taken(w, s)..])
  {
    if MatchLength(w, s) == 0 {
      CopyStep(w, s);
    } else {
      MatchStep(w, s);
    }
  }

  /** What becomes of the text before place `i`, where a piece of the scan begins. */
  function MaskTo(w: bool, s: string, i: nat): string
    decreases |s|
  {
    if s == "" || i < Taken(w, s) then ""
    else FirstMasked(w, s) + MaskTo(After(w, s), s[Taken(w, s)..], i - Taken(w, s))
  }

  lemma SuffixOfRest(s: string, m: nat, e: nat)
    requires m <= e <= |s|
    ensures s[m..][e - m..] == s[e..]
  {}

  /** The scan comes to place `i` in state `w'`. */
  predicate Reaches(w: bool, s: string, i: nat, w': bool)
    decreases |s|
  {
    if i == 0 then w' == w
    else s != "" && Taken(w, s) <= i && Reaches(After(w, s), s[Taken(w, s)..], i - Taken(w, s), w')
  }

  lemma {:induction false} FoundIsQuad(w: bool, s: string, i: nat, e: nat)
    requires FoundBetween(w, s, i, e)
    ensures QuadEnd(s[i..], 0, 3) == e - i
    decreases |s|
  {
    if i == 0 {
      assert s[0..] == s;
    } else {
      var m := Taken(w, s);
      FoundIsQuad(After(w, s), s[m..], i - m, e - m);
      SuffixOfRest(s, m, i);
    }
  }

  lemma {:induction false} FoundIsReached(w: bool, s: string, i: nat, e: nat)
    requires FoundBetween(w, s, i, e)
    ensures Reaches(w, s, i, false)
    decreases |s|
  {
    if i > 0 {
      FoundIsReached(After(w, s), s[Taken(w, s)..], i - Taken(w, s), e - Taken(w, s));
    }
  }

  /** What is masked as `rest` after the first piece is masked as that after it. */
  lemma MaskLater(w: bool, s: string, i: nat, w': bool, r: string, j: nat, rest: string)
    requires s != "" && w' == After(w, s) && r == s[Taken(w, s)..] && i == Taken(w, s) + j
    requires Mask(w', r) == MaskTo(w', r, j) + rest
    ensures Mask(w, s) == MaskTo(w, s, i) + rest
  {
    MaskOfFirst(w, s);
    Chain(Mask(w, s), FirstMasked(w, s), Mask(w', r), MaskTo(w', r, j), rest);
  }

  lemma Chain(whole: string, first: string, later: string, upTo: string, rest: string)
    requires whole == first + later && later == upTo + rest
    ensures whole == first + upTo + rest
  {}

  lemma {:induction false} MaskUpTo(w: bool, s: string, i: nat, w1: bool, z: string)
    requires i <= |s| && Reaches(w, s, i, w1) && z == s[i..]
    ensures Mask(w, s) == MaskTo(w, s, i) + Mask(w1, z)
    decreases |s|
  {
    if i == 0 {
      assert z == s;
      NothingBefore(Mask(w, s));
    } else {
      var m := Taken(w, s);
      SuffixOfRest(s, m, i);
      MaskUpTo(After(w, s), s[m..], i - m, w1, z);
      MaskLater(w, s, i, After(w, s), s[m..], i - m, Mask(w1, z));
    }
  }

  lemma FoundParts(w: bool, s: string, i: nat, e: nat)
    requires FoundBetween(w, s, i, e)
    ensures QuadEnd(s[i..], 0, 3) == e - i > 0 && s[i..][0..e - i] == s[i..e] && s[i..][e - i..] == s[e..]
  {
    FoundIsQuad(w, s, i, e);
    SliceOfRest(s, i, i, e);
    SuffixOfRest(s, i, e);
  }

  lemma MaskAtReached(w: bool, s: string, i: nat, n: nat, t: string, m: string, z: string)
    requires i <= |s| && Reaches(w, s, i, false) && t == s[i..]
    requires QuadEnd(t, 0, 3) == n > 0 && m == t[0..n] && z == t[n..]
    ensures Mask(w, s) == MaskTo(w, s, i) + (Replacement(m) + Mask(true, z))
  {
    MaskUpTo(w, s, i, false, t);
    MaskOfMatch(t, n, m, z);
  }

  /** A match that is found is replaced where it stands. */
  lemma MaskAtFound(w: bool, s: string, i: nat, e: nat)
    requires FoundBetween(w, s, i, e)
    ensures Mask(w, s) == MaskTo(w, s, i) + (Replacement(s[i..e]) + Mask(true, s[e..]))
  {
    FoundIsReached(w, s, i, e);
    FoundParts(w, s, i, e);
    MaskAtReached(w, s, i, e - i, s[i..], s[i..e], s[e..]);
  }

  lemma MaskOfMatch(t: string, n: nat, m: string, z: string)
    requires QuadEnd(t, 0, 3) == n > 0 && m == t[0..n] && z == t[n..]
    ensures Mask(false, t) == Replacement(m) + Mask(true, z)
  {
    MatchStep(false, t);
  }

  lemma Suffix(pre: string, m: string, post: string)
    ensures (pre + (m + post))[|pre| + |m|..] == post
  {}

  lemma MaskAtText(pre: string, m: string, post: string)
    requires FoundBetween(false, pre + (m + post), |pre|, |pre| + |m|)
    ensures MaskIP(pre + (m + post)) == MaskTo(false, pre + (m + post), |pre|) + (Replacement(m) + Mask(true, post))
  {
    MaskAtFound(false, pre + (m + post), |pre|, |pre| + |m|);
    Middle(pre, m, post);
    Suffix(pre, m, post);
  }

  /** Any address of the input, in any context, is a match of its own if and only if no part
      of a word comes before it or after it and no match that begins earlier runs over its
      first digit.  It is then masked where it stands, as it would be alone. */
  lemma AddressIsMaskedIff(pre: string, ip: seq<uint8>, post: string)
    requires |ip| == 4
    ensures FoundBetween(false, pre + (Dotted(ip) + post), |pre|, |pre| + |Dotted(ip)|)
            <==> OpenAfter(false, pre) && StartsApart(post) && !Crossed(false, pre + (Dotted(ip) + post), |pre|)
    ensures FoundBetween(false, pre + (Dotted(ip) + post), |pre|, |pre| + |Dotted(ip)|) ==>
              MaskIP(pre + (Dotted(ip) + post))
              == MaskTo(false, pre + (Dotted(ip) + post), |pre|) + (MaskIP(Dotted(ip)) + Mask(true, post))
  {
    DottedIsMatch(ip);
    QuadIsFoundIff(pre, Dotted(ip), post);
    if FoundBetween(false, pre + (Dotted(ip) + post), |pre|, |pre| + |Dotted(ip)|) {
      MaskAtText(pre, Dotted(ip), post);
      WholeMatch(Dotted(ip));
    }
  }

  // ---------- Crossed addresses ----------

  function Dots(t: string): nat {
    if t == "" then 0 else (if t[0] == '.' then 1 else 0) + Dots(t[1..])
  }

  lemma {:induction false} DotsOfBoth(a: string, b: string)
    ensures Dots(a + b) == Dots(a) + Dots(b)
    decreases |a|
  {
    if a == "" {
      NothingBefore(b);
    } else {
      FirstOfTwo(a, b);
      DotsOfBoth(a[1..], b);
    }
  }

  lemma {:induction false} NoDotsInRun(s: string, i: nat, r: nat)
    requires i <= r <= |s| && forall j :: i <= j < r ==> IsDigit(s[j])
    ensures Dots(s[i..r]) == 0
    decreases r - i
  {
    if i < r {
      NoDotsInRun(s, i + 1, r);
      assert s[i..r][1..] == s[i + 1..r];
    }
  }

  lemma CutAtDot(s: string, i: nat, r: nat, e: nat)
    requires i <= r < e <= |s| && s[r] == '.'
    ensures Dots(s[i..e]) == Dots(s[i..r]) + 1 + Dots(s[r + 1..e])
  {
    assert s[i..e] == s[i..r] + s[r..e];
    DotsOfBoth(s[i..r], s[r..e]);
    assert s[r..e][1..] == s[r + 1..e];
  }

  /** A match has as many dots as its pattern. */
  lemma {:induction false} DotsOfMatch(s: string, i: nat, dots: nat, e: nat)
    requires i <= |s| && QuadEnd(s, i, dots) == e > 0
    ensures Dots(s[i..e]) == dots
    decreases dots
  {
    var r := RunEnd(s, i);
    NoDotsInRun(s, i, r);
    if dots > 0 {
      DotsOfMatch(s, r + 1, dots - 1, e);
      CutAtDot(s, i, r, e);
    }
  }

  lemma DotsOfFound(w: bool, s: string, i: nat, e: nat)
    requires FoundBetween(w, s, i, e)
    ensures Dots(s[i..e]) == 3
  {
    FoundIsQuad(w, s, i, e);
    DotsOfMatch(s[i..], 0, 3, e - i);
    assert s[i..][0..e - i] == s[i..e];
  }

  predicate DottedText(t: string) {
    forall j :: 0 <= j < |t| ==> IsDigit(t[j]) || t[j] == '.'
  }

  /** Neither a word nor a dotted text goes on in `post`. */
  predicate StartsClear(post: string) {
    post == "" || (!IsWord(post[0]) && post[0] != '.')
  }

  lemma TooFewDots(t: string, post: string)
    requires DottedText(t) && Dots(t) <= 2 && StartsClear(post)
    ensures QuadEnd(t + post, 0, 3) == 0
  {
    var s := t + post;
    var e := QuadEnd(s, 0, 3);
    if e > 0 {
      MatchCharacters(s, 0, 3, e);
      DotsOfMatch(s, 0, 3, e);
      assert e <= |t| by {
        assert post != "" ==> s[|t|] == post[0];
      }
      assert s[0..e] + t[e..] == t;
      DotsOfBoth(s[0..e], t[e..]);
    }
  }

  lemma {:induction false} CopyDottedText(w: bool, t: string, post: string)
    requires DottedText(t) && Dots(t) <= 2 && StartsClear(post)
    ensures Mask(w, t + post) == t + Mask(if t == "" then w else IsWord(t[|t| - 1]), post)
    decreases |t|
  {
    if t == "" {
      NothingBefore(post);
      NothingBefore(Mask(w, post));
    } else {
      TooFewDots(t, post);
      CopyStep(w, t + post);
      FirstOfTwo(t, post);
      CopyDottedText(IsWord(t[0]), t[1..], post);
      Prepend(t, Mask(IsWord(t[|t| - 1]), post));
    }
  }

  /** The rest of an address, from one of its dots on, is copied. */
  lemma CopyRestOfAddress(t: string, post: string)
    requires |t| >= 2 && t[0] == '.' && DottedText(t) && IsDigit(t[|t| - 1]) && Dots(t) <= 3 && StartsClear(post)
    ensures Mask(true, t + post) == t + Mask(true, post)
  {
    CopyStep(true, t + post);
    FirstOfTwo(t, post);
    CopyDottedText(false, t[1..], post);
    Prepend(t, Mask(true, post));
  }

  /** A match that crosses into an address ends before one of the address's dots. */
  lemma CrossingEndsInside(pre: string, m: string, post: string, i: nat, e: nat)
    requires QuadEnd(m, 0, 3) == |m| > 0 && OpenAfter(false, pre)
    requires FoundBetween(false, pre + (m + post), i, e) && i < |pre| < e
    ensures e < |pre| + |m| && m[e - |pre|] == '.'
  {
    var s, k := pre + (m + post), |pre|;
    FoundCharacters(false, s, i, e, k - 1);
    assert s[k - 1] == pre[k - 1];
    DotsOfFound(false, s, i, e);
    CutAtDot(s, i, k - 1, e);
    if e >= k + |m| {
      WholeAddressHasDots(s, k, m, e);
    } else {
      FoundStandsApart(false, s, i, e);
      MatchCharacters(m, 0, 3, |m|);
      assert s[e] == m[e - k];
    }
  }

  lemma WholeAddressHasDots(s: string, k: nat, m: string, e: nat)
    requires QuadEnd(m, 0, 3) == |m| > 0 && k + |m| <= e <= |s| && s[k..k + |m|] == m
    ensures Dots(s[k..e]) >= 3
  {
    DotsOfMatch(m, 0, 3, |m|);
    assert m[0..|m|] == m;
    assert s[k..e] == m + s[k + |m|..e];
    DotsOfBoth(m, s[k + |m|..e]);
  }

  lemma Cut(pre: string, m: string, post: string, i: nat, e: nat)
    requires i <= |pre| <= e <= |pre| + |m|
    ensures (pre + (m + post))[i..e] == pre[i..] + m[..e - |pre|]
    ensures (pre + (m + post))[e..] == m[e - |pre|..] + post
  {}

  lemma DotsOfRest(m: string, n: nat)
    requires n <= |m|
    ensures Dots(m[n..]) <= Dots(m)
  {
    assert m == m[..n] + m[n..];
    DotsOfBoth(m[..n], m[n..]);
  }

  lemma RestOfAddress(m: string, n: nat)
    requires QuadEnd(m, 0, 3) == |m| > n && m[n] == '.'
    ensures |m[n..]| >= 2 && DottedText(m[n..]) && IsDigit(m[|m| - 1]) && Dots(m[n..]) <= 3
  {
    MatchCharacters(m, 0, 3, |m|);
    DotsOfMatch(m, 0, 3, |m|);
    assert m[0..|m|] == m;
    DotsOfRest(m, n);
  }

  lemma Reassemble(a: string, m: string, n: nat, z: string)
    requires n <= |m|
    ensures a + m[..n] + (m[n..] + z) == a + (m + z)
  {}

  lemma MaskOfCrossing(pre: string, m: string, post: string, i: nat, e: nat)
    requires QuadEnd(m, 0, 3) == |m| > 0 && StartsClear(post)
    requires i <= |pre| <= e < |pre| + |m| && m[e - |pre|] == '.'
    requires Replacement((pre + (m + post))[i..e]) == (pre + (m + post))[i..e]
    ensures var s := pre + (m + post);
            Replacement(s[i..e]) + Mask(true, s[e..]) == pre[i..] + (m + Mask(true, post))
  {
    Cut(pre, m, post, i, e);
    RestOfAddress(m, e - |pre|);
    CopyRestOfAddress(m[e - |pre|..], post);
    Reassemble(pre[i..], m, e - |pre|, Mask(true, post));
  }

  /** An address that a match crosses, which masking leaves alone, stays as it is, unless a
      dot follows it. */
  lemma CrossedAddressIsKept(pre: string, ip: seq<uint8>, post: string, i: nat, e: nat)
    requires |ip| == 4 && OpenAfter(false, pre) && StartsClear(post)
    requires FoundBetween(false, pre + (Dotted(ip) + post), i, e) && i < |pre| < e
    requires var m := (pre + (Dotted(ip) + post))[i..e]; Replacement(m) == m
    ensures MaskIP(pre + (Dotted(ip) + post))
            == MaskTo(false, pre + (Dotted(ip) + post), i) + (pre[i..] + (Dotted(ip) + Mask(true, post)))
  {
    DottedIsMatch(ip);
    CrossingEndsInside(pre, Dotted(ip), post, i, e);
    MaskAtFound(false, pre + (Dotted(ip) + post), i, e);
    MaskOfCrossing(pre, Dotted(ip), post, i, e);
  }

  /** An address of the output that could be masked is part of a longer word, or it follows a
      dot and is crossed by a match; and all matches in the output are texts that masking
      leaves alone. */
  lemma SurvivorIsHidden(s: string, pre: string, ip: seq<uint8>, post: string)
    requires |ip| == 4 && ip[0] != 127 && MaskIP(s) == pre + (Dotted(ip) + post)
    ensures (pre != "" && IsWord(pre[|pre| - 1])) || !StartsApart(post)
            || (pre != "" && pre[|pre| - 1] == '.' && Crossed(false, MaskIP(s), |pre|))
    ensures forall m <- FoundIn(false, MaskIP(s)) :: Replacement(m) == m
  {
    MaskIPIdempotent(s);
    if StartsApart(post) && OpenAfter(false, pre) {
      MaskableIsCrossed(pre, ip, post);
      if pre != "" {
        assert MaskIP(s)[|pre| - 1] == pre[|pre| - 1];
        CrossedAfterDot(false, MaskIP(s), |pre|);
      }
    }
  }
}
