/**
 * What display_post (app.py:94-146) offers for download once rendering and
 * the HTTP fetches are taken away: the caption summary, and one media item
 * per image or video, each with its kind, the URL its bytes come from and
 * the file name of its download button.
 */
module Media {
  import opened Builtins
  import opened Caption

  datatype Kind = Image | Video

  /** One slide of a carousel, as instaloader's sidecar node exposes it. */
  datatype SidecarNode = SidecarNode(isVideo: bool, displayUrl: string, videoUrl: string)

  /** The fields of an instaloader Post that display_post reads. */
  datatype Post = Post(
    owner: string,
    caption: Option<string>,
    typename: string,
    url: string,
    videoUrl: string,
    sidecar: seq<SidecarNode>)

  /** A download offered to the user: `slide` is the 1-based slide number for a
      carousel item and None for a single image or video. */
  datatype MediaItem = MediaItem(kind: Kind, sourceUrl: string, fileName: string, slide: Option<nat>)

  /** The file name `f"{owner}_video_{n}.mp4"` or `f"{owner}_image_{n}.jpg"`:
      it starts with the owner and ends in the extension of the slide's kind
      (SlideFileNameInjective: no two slides share it). */
  function SlideFileName(owner: string, isVideo: bool, n: nat): (name: string)
    ensures StartsWith(name, owner)
    ensures EndsWith(name, if isVideo then ".mp4" else ".jpg")
  {
    var tag := if isVideo then "_video_" else "_image_";
    var ext := if isVideo then ".mp4" else ".jpg";
    var name := owner + tag + Decimal(n) + ext;
    assert name[..|owner|] == owner;
    assert name[|name| - 4..] == ext;
    name
  }

  /** `item` is what the loop body offers for `node` as slide `n`. */
  predicate IsSlide(owner: string, node: SidecarNode, n: nat, item: MediaItem)
  {
    item.slide == Some(n) &&
    item.fileName == SlideFileName(owner, node.isVideo, n) &&
    if node.isVideo then item.kind == Video && item.sourceUrl == node.videoUrl
    else item.kind == Image && item.sourceUrl == node.displayUrl
  }

  /** The extension of a file name follows its kind. */
  predicate ExtensionMatches(item: MediaItem)
  {
    if item.kind == Video then EndsWith(item.fileName, ".mp4") else EndsWith(item.fileName, ".jpg")
  }

  /** Two slides never share a file name: the name determines both the slide
      number and whether the slide is a video. */
  lemma SlideFileNameInjective(owner: string, v: bool, m: nat, w: bool, n: nat)
    requires SlideFileName(owner, v, m) == SlideFileName(owner, w, n)
    ensures v == w && m == n
  {
    var t1, e1 := if v then "_video_" else "_image_", if v then ".mp4" else ".jpg";
    var t2, e2 := if w then "_video_" else "_image_", if w then ".mp4" else ".jpg";
    assert SlideFileName(owner, v, m) == owner + t1 + Decimal(m) + e1;
    assert SlideFileName(owner, w, n) == owner + t2 + Decimal(n) + e2;
    NameParts(owner, t1, Decimal(m), e1, t2, Decimal(n), e2);
    assert t1[1] == (if v then 'v' else 'i') && t2[1] == (if w then 'v' else 'i');
    DecimalInjective(m, n);
  }

  /** Equal names built from the same owner and parts of equal lengths have
      equal parts. */
  lemma NameParts(owner: string, t1: string, d1: string, e1: string,
                  t2: string, d2: string, e2: string)
    requires owner + t1 + d1 + e1 == owner + t2 + d2 + e2
    requires |t1| == |t2| && |e1| == |e2|
    ensures t1 == t2 && d1 == d2
  {
    var x, y := owner + t1 + d1 + e1, owner + t2 + d2 + e2;
    var k := |owner| + |t1|;
    assert x[|owner|..k] == t1 && y[|owner|..k] == t2;
    assert x[k..|x| - |e1|] == d1 && y[k..|y| - |e2|] == d2;
  }

  /** Slides numbered by position carry pairwise different file names. */
  lemma SlidesHaveDistinctNames(owner: string, nodes: seq<SidecarNode>, items: seq<MediaItem>)
    requires |items| == |nodes|
    requires forall i :: 0 <= i < |items| ==> IsSlide(owner, nodes[i], i + 1, items[i])
    ensures forall i, j :: 0 <= i < j < |items| ==> items[i].fileName != items[j].fileName
  {
    forall i, j | 0 <= i < j < |items| ensures items[i].fileName != items[j].fileName {
      DistinctSlides(owner, nodes[i], i + 1, items[i], nodes[j], j + 1, items[j]);
    }
  }

  /** Slides with different numbers have different file names. */
  lemma DistinctSlides(owner: string, a: SidecarNode, m: nat, x: MediaItem,
                       b: SidecarNode, n: nat, y: MediaItem)
    requires IsSlide(owner, a, m, x) && IsSlide(owner, b, n, y) && m != n
    ensures x.fileName != y.fileName
  {
    if x.fileName == y.fileName {
      SlideFileNameInjective(owner, a.isVideo, m, b.isVideo, n);
    }
  }

  /** Every slide's file name starts with the owner and ends in the extension
      of its kind, and no two slides share one. */
  lemma SlidesWellNamed(owner: string, nodes: seq<SidecarNode>, items: seq<MediaItem>)
    requires |items| == |nodes|
    requires forall i :: 0 <= i < |items| ==> IsSlide(owner, nodes[i], i + 1, items[i])
    ensures forall i :: 0 <= i < |items| ==>
              ExtensionMatches(items[i]) && StartsWith(items[i].fileName, owner)
    ensures forall i, j :: 0 <= i < j < |items| ==> items[i].fileName != items[j].fileName
  {
    SlidesHaveDistinctNames(owner, nodes, items);
  }

  /** The `for idx, node in enumerate(post.get_sidecar_nodes())` loop of
      display_post: one item per node, in node order, numbered from 1; every
      file name starts with the owner and ends in the extension of its kind,
      and no two items share a file name. */
  method EnumerateSlides(owner: string, nodes: seq<SidecarNode>) returns (items: seq<MediaItem>)
    ensures |items| == |nodes|
    ensures forall i :: 0 <= i < |items| ==> IsSlide(owner, nodes[i], i + 1, items[i])
    ensures forall i :: 0 <= i < |items| ==>
              ExtensionMatches(items[i]) && StartsWith(items[i].fileName, owner)
    ensures forall i, j :: 0 <= i < j < |items| ==> items[i].fileName != items[j].fileName
  {
    items := [];
    var idx := 0;
    while idx < |nodes|
      invariant 0 <= idx <= |nodes| && |items| == idx
      invariant forall i :: 0 <= i < idx ==> IsSlide(owner, nodes[i], i + 1, items[i])
    {
      var node := nodes[idx];
      var name := SlideFileName(owner, node.isVideo, idx + 1);
      var item;
      if node.isVideo {
        item := MediaItem(Video, node.videoUrl, name, Some(idx + 1));
      } else {
        item := MediaItem(Image, node.displayUrl, name, Some(idx + 1));
      }
      items := items + [item];
      idx := idx + 1;
    }
    SlidesWellNamed(owner, nodes, items);
  }

  /** The name of a single image or video starts with the owner and ends in
      its extension. */
  lemma SingleFileName(owner: string, ext: string)
    ensures StartsWith(owner + ext, owner) && EndsWith(owner + ext, ext)
  {
    assert (owner + ext)[..|owner|] == owner;
    assert (owner + ext)[|owner|..] == ext;
  }

  /** display_post without its rendering: the summary shown for the caption
      and the downloads offered, by the post's typename. A single image is
      offered as `owner.jpg` from the post URL, a single video as `owner.mp4`
      from the video URL, a carousel as its slides, and any other typename
      offers nothing. Every offered file name starts with the owner and ends
      in the extension of its kind, only carousel items carry a slide number,
      and no two offered items share a file name. */
  method DisplayPost(post: Post) returns (summary: string, items: seq<MediaItem>)
    ensures summary == Summarize(post.caption)
    ensures post.typename == "GraphImage" ==>
              items == [MediaItem(Image, post.url, post.owner + ".jpg", None)]
    ensures post.typename == "GraphVideo" ==>
              items == [MediaItem(Video, post.videoUrl, post.owner + ".mp4", None)]
    ensures post.typename == "GraphSidecar" ==>
              |items| == |post.sidecar| &&
              forall i :: 0 <= i < |items| ==> IsSlide(post.owner, post.sidecar[i], i + 1, items[i])
    ensures post.typename !in {"GraphImage", "GraphVideo", "GraphSidecar"} ==> items == []
    ensures forall i :: 0 <= i < |items| ==>
              ExtensionMatches(items[i]) && StartsWith(items[i].fileName, post.owner)
    ensures forall i :: 0 <= i < |items| ==> (items[i].slide.Some? <==> post.typename == "GraphSidecar")
    ensures forall i, j :: 0 <= i < j < |items| ==> items[i].fileName != items[j].fileName
  {
    var owner := post.owner;
    summary := Summarize(post.caption);
    if post.typename == "GraphImage" {
      items := [MediaItem(Image, post.url, owner + ".jpg", None)];
      SingleFileName(owner, ".jpg");
    } else if post.typename == "GraphVideo" {
      items := [MediaItem(Video, post.videoUrl, owner + ".mp4", None)];
      SingleFileName(owner, ".mp4");
    } else if post.typename == "GraphSidecar" {
      items := EnumerateSlides(owner, post.sidecar);
    } else {
      items := [];
    }
  }
}
