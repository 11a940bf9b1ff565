/**
  The navigation trail shown in the app bar: the pathname is split on
  `/`, empty pieces are dropped, and each remaining segment becomes a link
  to the path made of the segments up to and including it.
 */
module Breadcrumbs {
  import opened Seqs

  /** The pieces joined with `/` between them (`Array.prototype.join("/")`). */
  function Join(pieces: seq<string>): string
  {
    if |pieces| == 0 then ""
    else if |pieces| == 1 then pieces[0]
    else pieces[0] + "/" + Join(pieces[1..])
  }

  ghost predicate NoSlash(piece: string)
  {
    '/' !in piece
  }

  /** `String.prototype.split("/")`: the pieces between the slashes, empty ones included. */
  function Split(s: string): (r: seq<string>)
    ensures |r| >= 1
    ensures forall i | 0 <= i < |r| :: NoSlash(r[i])
    ensures Join(r) == s
  {
    if |s| == 0 then [""]
    else
      var rest := Split(s[1..]);
      assert s == [s[0]] + s[1..];
      if s[0] == '/' then [""] + rest
      else
        var r := [[s[0]] + rest[0]] + rest[1..];
        assert r[1..] == rest[1..];
        r
  }

  lemma {:induction false} SplitPiece(x: string)
    requires NoSlash(x)
    ensures Split(x) == [x]
  {
    if |x| > 0 {
      SplitPiece(x[1..]);
      assert x == [x[0]] + x[1..];
    }
  }

  lemma {:induction false} SplitFront(x: string, y: string)
    requires NoSlash(x)
    ensures Split(x + "/" + y) == [x] + Split(y)
  {
    if |x| == 0 {
      assert x + "/" + y == ['/'] + y;
      assert (['/'] + y)[1..] == y;
    } else {
      var s := x + "/" + y;
      assert s[1..] == x[1..] + "/" + y;
      SplitFront(x[1..], y);
      assert x == [x[0]] + x[1..];
    }
  }

  /** `Split` undoes `Join` on pieces without slashes: the two are inverse. */
  lemma {:induction false} SplitJoin(pieces: seq<string>)
    requires |pieces| >= 1
    requires forall i | 0 <= i < |pieces| :: NoSlash(pieces[i])
    ensures Split(Join(pieces)) == pieces
  {
    if |pieces| == 1 {
      SplitPiece(pieces[0]);
    } else {
      SplitJoin(pieces[1..]);
      SplitFront(pieces[0], Join(pieces[1..]));
      assert pieces == [pieces[0]] + pieces[1..];
    }
  }

  lemma {:induction false} JoinSnoc(pieces: seq<string>, x: string)
    requires |pieces| >= 1
    ensures Join(pieces + [x]) == Join(pieces) + "/" + x
  {
    if |pieces| > 1 {
      assert (pieces + [x])[1..] == pieces[1..] + [x];
      JoinSnoc(pieces[1..], x);
    }
  }

  /** The truthiness test of `.filter(x => x)`: a string is kept when it is not empty. */
  predicate NonEmpty(piece: string)
  {
    |piece| > 0
  }

  /** `pathnames`: the non-empty `/`-separated pieces of the pathname, in order. */
  function Segments(path: string): (r: seq<string>)
    ensures forall i | 0 <= i < |r| :: NonEmpty(r[i]) && NoSlash(r[i])
    ensures IsSubsequence(r, Split(path))
    ensures forall x :: multiset(r)[x] == if NonEmpty(x) then multiset(Split(path))[x] else 0
  {
    var pieces := Split(path);
    var r := Filter(pieces, NonEmpty);
    assert forall i | 0 <= i < |r| :: r[i] in multiset(pieces);
    r
  }

  /** The target of the link for segment `k`: a slash, then segments `0..k` joined with `/`. */
  function LinkTarget(segments: seq<string>, k: int): string
    requires 0 <= k < |segments|
  {
    "/" + Join(segments[..k + 1])
  }

  datatype Crumb = Crumb(to: string, caption: string)

  /** The breadcrumb bar: hidden, or the home link followed by one link per segment. */
  datatype Trail = Hidden | Shown(home: Crumb, links: seq<Crumb>)

  function BreadcrumbTrail(path: string): (r: Trail)
    ensures r.Hidden? <==> |Segments(path)| == 0
    ensures r.Shown? ==> r.home == Crumb("/", "Home") && |r.links| == |Segments(path)|
    ensures r.Shown? ==> forall k | 0 <= k < |r.links| ::
      r.links[k] == Crumb(LinkTarget(Segments(path), k), Segments(path)[k])
  {
    var segments := Segments(path);
    if |segments| == 0 then Hidden
    else Shown(Crumb("/", "Home"),
               seq(|segments|, k requires 0 <= k < |segments| => Crumb(LinkTarget(segments, k), segments[k])))
  }

  /** The next link's target extends this one's by a slash and the next segment. */
  lemma LinkTargetStep(segments: seq<string>, k: int)
    requires 0 <= k < |segments| - 1
    ensures LinkTarget(segments, k + 1) == LinkTarget(segments, k) + "/" + segments[k + 1]
  {
    assert segments[..k + 2] == segments[..k + 1] + [segments[k + 1]];
    JoinSnoc(segments[..k + 1], segments[k + 1]);
  }

  /** Each link target is a proper prefix of every later one, so the link keys are distinct. */
  lemma {:induction false} LinkTargetsNest(segments: seq<string>, i: int, j: int)
    requires 0 <= i < j < |segments|
    ensures LinkTarget(segments, i) < LinkTarget(segments, j)
    ensures LinkTarget(segments, i) != LinkTarget(segments, j)
    decreases j - i
  {
    LinkTargetStep(segments, j - 1);
    if i < j - 1 {
      LinkTargetsNest(segments, i, j - 1);
    }
  }

  /** The last link targets a slash followed by all segments joined with `/`. */
  lemma LastLinkTarget(segments: seq<string>)
    requires |segments| > 0
    ensures LinkTarget(segments, |segments| - 1) == "/" + Join(segments)
  {
    assert segments[..|segments|] == segments;
  }

  /**
    A canonical path (a slash, then non-empty segments joined by `/`) has
    exactly those segments; with no segments it is the root `/`, which has none.
   */
  lemma SegmentsOfCanonical(segments: seq<string>)
    requires forall i | 0 <= i < |segments| :: NonEmpty(segments[i]) && NoSlash(segments[i])
    ensures Segments("/" + Join(segments)) == segments
  {
    var path := "/" + Join(segments);
    assert path[0] == '/' && path[1..] == Join(segments);
    if |segments| == 0 {
      assert Split(path) == [""] + [""];
      FilterCons("", [""], NonEmpty);
      FilterCons("", [], NonEmpty);
    } else {
      SplitJoin(segments);
      assert Split(path) == [""] + segments;
      FilterCons("", segments, NonEmpty);
      FilterAll(segments, NonEmpty);
    }
  }

  /**
    Following link `k` leads to a path whose trail shows exactly the first
    `k + 1` segments; the last link leads back to the same trail.
   */
  lemma FollowLink(path: string, k: int)
    requires 0 <= k < |Segments(path)|
    ensures Segments(LinkTarget(Segments(path), k)) == Segments(path)[..k + 1]
  {
    SegmentsOfCanonical(Segments(path)[..k + 1]);
  }
}
