/**
 * The scanning part of get_links (src/search.rs): given the HTML text of a
 * fetched article, find the content region and collect every internal
 * article link after it, skipping the non-article namespaces.
 *
 * Positions are indices into the text as a sequence of characters. Every
 * pattern searched for is ASCII, so they mark the same places as the byte
 * offsets src/search.rs slices on.
 */
module LinkScan {
  import opened Wrappers

  /** Opening of the page's content region; nothing before it is scanned. */
  const ContentMarker: string := "<div id=\"mw-content-text\""
  /** Opening of an internal article link (15 characters). */
  const WikiAnchor: string := "<a href=\"/wiki/"
  /** The quote that closes a link target. */
  const Quote: string := "\""
  /** Prefix put in front of every kept link target. */
  const ArticleBase: string := "https://en.wikipedia.org/wiki/"

  predicate OccursAt(s: string, pat: string, i: nat)
  {
    i + |pat| <= |s| && s[i..i + |pat|] == pat
  }

  /** First occurrence of `pat` in `s` at or after `from` (str::find on the tail). */
  function Find(s: string, pat: string, from: nat): (r: Option<nat>)
    requires from <= |s|
    ensures r.Some? ==> from <= r.value && OccursAt(s, pat, r.value)
    decreases |s| - from
  {
    if OccursAt(s, pat, from) then Some(from)
    else if from == |s| then None
    else Find(s, pat, from + 1)
  }

  /** Find returns the first occurrence: none starts between `from` and it, nor anywhere after `from` when it finds none. */
  lemma {:induction false} FindFirst(s: string, pat: string, from: nat)
    requires from <= |s|
    ensures var r := Find(s, pat, from);
      forall j :: from <= j && (r.None? || j < r.value) ==> !OccursAt(s, pat, j)
    decreases |s| - from
  {
    if !OccursAt(s, pat, from) && from < |s| {
      FindFirst(s, pat, from + 1);
    }
  }

  /** The eight namespaces whose pages are not articles. */
  predicate InExcludedNamespace(r: string)
  {
    || "File:" <= r
    || "Category:" <= r
    || "Special:" <= r
    || "Talk:" <= r
    || "Wikipedia:" <= r
    || "Template:" <= r
    || "Portal:" <= r
    || "Help:" <= r
  }

  /** A link anchor met by the scan: its position and the text up to the closing quote. */
  datatype Anchor = Anchor(at: nat, target: string)

  function TargetStart(a: Anchor): nat { a.at + |WikiAnchor| }
  function TargetEnd(a: Anchor): nat { a.at + |WikiAnchor| + |a.target| }

  ghost predicate NoAnchorIn(s: string, lo: nat, hi: int)
  {
    forall j :: lo <= j < hi ==> !OccursAt(s, WikiAnchor, j)
  }

  /** `a` is a complete anchor in `s`: anchor text, then a quote-free target, then a quote. */
  ghost predicate AnchorIn(s: string, a: Anchor)
  {
    && OccursAt(s, WikiAnchor, a.at)
    && TargetEnd(a) < |s|
    && s[TargetStart(a)..TargetEnd(a)] == a.target
    && '"' !in a.target
    && s[TargetEnd(a)] == '"'
  }

  /**
   * `anchors` is what a left-to-right scan from `pos` meets: each anchor is the
   * first one at or after the end of the previous target, and no anchor starts
   * at or after the end of the last one.
   */
  ghost predicate ScannedFrom(s: string, pos: nat, anchors: seq<Anchor>)
    decreases anchors
  {
    if anchors == [] then NoAnchorIn(s, pos, |s| + 1)
    else
      && pos <= anchors[0].at
      && NoAnchorIn(s, pos, anchors[0].at)
      && AnchorIn(s, anchors[0])
      && ScannedFrom(s, TargetEnd(anchors[0]), anchors[1..])
  }

  /** The anchors met from `pos` on, or None where an anchor has no closing quote (the panic). */
  function ScanFrom(s: string, pos: nat): Option<seq<Anchor>>
    requires pos <= |s|
    decreases |s| - pos
  {
    match Find(s, WikiAnchor, pos)
    case None => Some([])
    case Some(a) =>
      match Find(s, Quote, a + |WikiAnchor|)
      case None => None
      case Some(q) =>
        match ScanFrom(s, q)
        case None => None
        case Some(rest) => Some([Anchor(a, s[a + |WikiAnchor|..q])] + rest)
  }

  /** What ScanFrom returns is exactly what a left-to-right scan from `pos` meets. */
  lemma {:induction false} ScanFromScanned(s: string, pos: nat)
    requires pos <= |s| && ScanFrom(s, pos).Some?
    ensures ScannedFrom(s, pos, ScanFrom(s, pos).value)
    decreases |s| - pos
  {
    var a := Find(s, WikiAnchor, pos);
    FindFirst(s, WikiAnchor, pos);
    if a.Some? {
      var start := a.value + |WikiAnchor|;
      var q := Find(s, Quote, start).value;
      FoundAnchor(s, pos, a.value, q);
      ScanFromScanned(s, q);
      var first := Anchor(a.value, s[start..q]);
      var rest := ScanFrom(s, q).value;
      assert ScanFrom(s, pos).value == [first] + rest;
      assert ([first] + rest)[1..] == rest;
    }
  }

  /** The anchor at `a` whose target the quote at `q` closes is the first complete anchor from `pos`. */
  lemma FoundAnchor(s: string, pos: nat, a: nat, q: nat)
    requires pos <= |s| && Find(s, WikiAnchor, pos) == Some(a)
    requires a + |WikiAnchor| <= |s| && Find(s, Quote, a + |WikiAnchor|) == Some(q)
    ensures pos <= a && NoAnchorIn(s, pos, a)
    ensures AnchorIn(s, Anchor(a, s[a + |WikiAnchor|..q])) && TargetEnd(Anchor(a, s[a + |WikiAnchor|..q])) == q
  {
    FindFirst(s, WikiAnchor, pos);
    FindFirst(s, Quote, a + |WikiAnchor|);
    QuoteFreeBefore(s, a + |WikiAnchor|, q);
    assert s[q..q + 1] == Quote;
  }

  /** No quote starts between `lo` and `q`, so the text between them holds none. */
  lemma QuoteFreeBefore(s: string, lo: nat, q: nat)
    requires lo <= q <= |s|
    requires forall j :: lo <= j < q ==> !OccursAt(s, Quote, j)
    ensures '"' !in s[lo..q]
  {
    forall j | lo <= j < q
      ensures s[j] != '"'
    {
      assert !OccursAt(s, Quote, j);
      assert s[j..j + 1] == [s[j]];
    }
  }

  /** The links made from the anchors whose targets are articles, in the anchors' order. */
  function Kept(anchors: seq<Anchor>): seq<string>
  {
    if anchors == [] then [] else KeptTarget(anchors[0].target) + Kept(anchors[1..])
  }

  /** What one anchor target contributes to the result: its link, unless it is in an excluded namespace. */
  function KeptTarget(r: string): seq<string>
  {
    if InExcludedNamespace(r) then [] else [ArticleBase + r]
  }

  /** Kept keeps exactly the links of the anchors outside the excluded namespaces. */
  lemma {:induction false} KeptFilters(anchors: seq<Anchor>)
    ensures |Kept(anchors)| <= |anchors|
    ensures forall l :: l in Kept(anchors) ==>
      exists a :: a in anchors && l == ArticleBase + a.target && !InExcludedNamespace(a.target)
    ensures forall a :: a in anchors && !InExcludedNamespace(a.target) ==> ArticleBase + a.target in Kept(anchors)
    decreases anchors
  {
    if anchors != [] {
      KeptFilters(anchors[1..]);
      assert anchors == [anchors[0]] + anchors[1..];
    }
  }

  /** What get_links returns for a page; None where the unwrap on the closing quote panics. */
  function PageLinks(html: string): Option<seq<string>>
  {
    match Find(html, ContentMarker, 0)
    case None => Some([])
    case Some(beg) => AppendKept([], ScanFrom(html, beg))
  }

  /** The links already collected, followed by those the remaining anchors give; None stays None. */
  function AppendKept(done: seq<string>, rest: Option<seq<Anchor>>): Option<seq<string>>
  {
    match rest
    case None => None
    case Some(anchors) => Some(done + Kept(anchors))
  }

  /** One iteration of the scan: the first anchor at or after `x`, its target, and the rest. */
  lemma ScanStep(s: string, x: nat, a: nat, q: nat, done: seq<string>)
    requires x <= |s| && Find(s, WikiAnchor, x) == Some(a)
    requires a + |WikiAnchor| <= |s| && Find(s, Quote, a + |WikiAnchor|) == Some(q)
    ensures AppendKept(done, ScanFrom(s, x)) == AppendKept(done + KeptTarget(s[a + |WikiAnchor|..q]), ScanFrom(s, q))
  {
    ScanFromUnfold(s, x, a, q);
    AppendKeptStep(done, Anchor(a, s[a + |WikiAnchor|..q]), ScanFrom(s, q));
  }

  /** Taking one anchor off the front of the scan moves its contribution into the done part. */
  lemma AppendKeptStep(done: seq<string>, anchor: Anchor, rest: Option<seq<Anchor>>)
    ensures AppendKept(done, if rest.Some? then Some([anchor] + rest.value) else None)
         == AppendKept(done + KeptTarget(anchor.target), rest)
  {
    if rest.Some? {
      assert ([anchor] + rest.value)[1..] == rest.value;
      assert done + (KeptTarget(anchor.target) + Kept(rest.value))
          == (done + KeptTarget(anchor.target)) + Kept(rest.value);
    }
  }

  /** One step of ScanFrom: the anchor at `a`, closed by the quote at `q`, then the scan from `q`. */
  lemma ScanFromUnfold(s: string, x: nat, a: nat, q: nat)
    requires x <= |s| && Find(s, WikiAnchor, x) == Some(a)
    requires a + |WikiAnchor| <= |s| && Find(s, Quote, a + |WikiAnchor|) == Some(q)
    ensures q <= |s|
    ensures ScanFrom(s, x) == if ScanFrom(s, q).Some? then Some([Anchor(a, s[a + |WikiAnchor|..q])] + ScanFrom(s, q).value) else None
  {
  }

  /** The scanning loop of get_links, one anchor per iteration. */
  method GetLinks(html: string) returns (links: Option<seq<string>>)
    ensures links == PageLinks(html)
  {
    var beg := Find(html, ContentMarker, 0);
    if beg.None? {
      return Some([]);
    }
    var res: seq<string> := [];
    var x := beg.value;
    var ind := Find(html, WikiAnchor, x);
    while ind.Some?
      invariant x <= |html|
      invariant ind == Find(html, WikiAnchor, x)
      invariant PageLinks(html) == AppendKept(res, ScanFrom(html, x))
      decreases |html| - x
    {
      ghost var start := x;
      x := ind.value + |WikiAnchor|;
      var refEnd := Find(html, Quote, x);
      if refEnd.None? {
        return None;
      }
      ScanStep(html, start, ind.value, refEnd.value, res);
      var r := html[x..refEnd.value];
      ghost var old_res := res;
      if !InExcludedNamespace(r) {
        res := res + [ArticleBase + r];
      }
      assert res == old_res + KeptTarget(r);
      x := refEnd.value;
      ind := Find(html, WikiAnchor, x);
    }
    assert ScanFrom(html, x) == Some([]);
    assert res + Kept([]) == res;
    links := Some(res);
  }

  /** The title part of a link built from ArticleBase. */
  function Title(link: string): string
    requires ArticleBase <= link
  {
    link[|ArticleBase|..]
  }

  /** Without the content marker the page yields no links at all. */
  lemma NoMarkerNoLinks(html: string)
    requires forall j :: !OccursAt(html, ContentMarker, j)
    ensures PageLinks(html) == Some([])
  {
  }

  /** The anchors of a scan are complete anchors after `pos`, in document order and not overlapping. */
  lemma {:induction false} ScannedInOrder(s: string, pos: nat, anchors: seq<Anchor>)
    requires ScannedFrom(s, pos, anchors)
    ensures forall k :: 0 <= k < |anchors| ==> pos <= anchors[k].at && AnchorIn(s, anchors[k])
    ensures forall k, l :: 0 <= k < l < |anchors| ==> TargetEnd(anchors[k]) < anchors[l].at
    decreases anchors
  {
    if anchors != [] {
      var rest := anchors[1..];
      ScannedInOrder(s, TargetEnd(anchors[0]), rest);
      if rest != [] {
        // rest[0] starts with '<' where anchors[0]'s closing quote stands
        assert s[rest[0].at] == s[rest[0].at..rest[0].at + |WikiAnchor|][0] == '<';
      }
      forall k, l | 0 <= k < l < |anchors|
        ensures TargetEnd(anchors[k]) < anchors[l].at
      {
        if k > 0 {
          assert anchors[k] == rest[k - 1] && anchors[l] == rest[l - 1];
        } else {
          assert anchors[l] == rest[l - 1];
        }
      }
    }
  }

  /** A scan's anchors are determined by the text: ScannedFrom has at most one solution. */
  lemma {:induction false} ScannedUnique(s: string, pos: nat, a1: seq<Anchor>, a2: seq<Anchor>)
    requires ScannedFrom(s, pos, a1) && ScannedFrom(s, pos, a2)
    ensures a1 == a2
    decreases a1
  {
    if a1 != [] && a2 != [] {
      var x, y := a1[0], a2[0];
      assert x.at == y.at;
      assert x.target == y.target;
      ScannedUnique(s, TargetEnd(x), a1[1..], a2[1..]);
      assert a1 == [x] + a1[1..] && a2 == [y] + a2[1..];
    }
  }

  /** The scan panics only on an anchor after `pos` that no quote follows. */
  lemma {:induction false} PanicOnUnclosedAnchor(s: string, pos: nat)
    requires pos <= |s| && ScanFrom(s, pos).None?
    ensures exists j :: pos <= j && OccursAt(s, WikiAnchor, j) && Find(s, Quote, j + |WikiAnchor|).None?
    decreases |s| - pos
  {
    var a := Find(s, WikiAnchor, pos).value;
    var q := Find(s, Quote, a + |WikiAnchor|);
    if q.Some? {
      PanicOnUnclosedAnchor(s, q.value);
      var j :| q.value <= j && OccursAt(s, WikiAnchor, j) && Find(s, Quote, j + |WikiAnchor|).None?;
      assert pos <= j;
    }
  }

  /** Filtering commutes with splitting the anchors: kept links keep the anchors' order. */
  lemma {:induction false} KeptConcat(xs: seq<Anchor>, ys: seq<Anchor>)
    ensures Kept(xs + ys) == Kept(xs) + Kept(ys)
    decreases xs
  {
    if xs != [] {
      assert (xs + ys)[1..] == xs[1..] + ys;
      KeptConcat(xs[1..], ys);
    } else {
      assert xs + ys == ys;
    }
  }

  /** Every link returned is ArticleBase and a title without quotes outside the excluded namespaces. */
  lemma PageLinksAreArticles(html: string)
    requires PageLinks(html).Some?
    ensures forall l :: l in PageLinks(html).value ==>
      ArticleBase <= l && '"' !in Title(l) && !InExcludedNamespace(Title(l))
  {
    var beg := Find(html, ContentMarker, 0);
    if beg.Some? {
      var anchors := ScanFrom(html, beg.value).value;
      ScanFromScanned(html, beg.value);
      ScannedInOrder(html, beg.value, anchors);
      KeptFilters(anchors);
      forall l | l in Kept(anchors)
        ensures ArticleBase <= l && '"' !in Title(l) && !InExcludedNamespace(Title(l))
      {
        var a :| a in anchors && l == ArticleBase + a.target && !InExcludedNamespace(a.target);
        assert Title(l) == a.target;
      }
    }
  }

  /**
   * With the marker, the links come from the anchors the scan meets after the
   * marker's first occurrence, in document order; and from no anchor before it.
   */
  lemma PageLinksAfterMarker(html: string, beg: nat, anchors: seq<Anchor>)
    requires Find(html, ContentMarker, 0) == Some(beg)
    requires ScanFrom(html, beg) == Some(anchors)
    ensures PageLinks(html) == Some(Kept(anchors))
    ensures OccursAt(html, ContentMarker, beg) && forall j :: 0 <= j < beg ==> !OccursAt(html, ContentMarker, j)
    ensures forall k :: 0 <= k < |anchors| ==> beg <= anchors[k].at && AnchorIn(html, anchors[k])
    ensures forall k, l :: 0 <= k < l < |anchors| ==> TargetEnd(anchors[k]) < anchors[l].at
  {
    FindFirst(html, ContentMarker, 0);
    ScanFromScanned(html, beg);
    ScannedInOrder(html, beg, anchors);
    assert [] + Kept(anchors) == Kept(anchors);
  }
}
