/**
 * extract_shortcode (app.py:87-92) and the three checks that guard the
 * "Download Post" action before anything is fetched (app.py:149-159).
 */
module Shortcode {
  import opened Builtins

  const Host: string := "instagram.com"

  /** `c.isalnum() or c in ['-', '_']`, with isalnum taken over ASCII. */
  predicate IsShortcodeChar(c: char)
  {
    'A' <= c <= 'Z' || 'a' <= c <= 'z' || '0' <= c <= '9' || c == '-' || c == '_'
  }

  /** A path segment accepted as a shortcode: longer than five characters,
      all of them shortcode characters. */
  predicate IsShortcode(part: string)
  {
    |part| > 5 && forall i :: 0 <= i < |part| ==> IsShortcodeChar(part[i])
  }

  /** `url.strip("/").split("/")`. */
  function Segments(url: string): (parts: seq<string>)
    ensures forall k :: 0 <= k < |parts| ==> Contains(url, parts[k])
  {
    var core := Trim(url, {'/'});
    TrimContained(url, {'/'});
    var parts := Split(core, '/');
    forall k | 0 <= k < |parts| ensures Contains(url, parts[k]) {
      PieceOccurs(url, core, parts, k);
    }
    parts
  }

  lemma PieceOccurs(url: string, core: string, parts: seq<string>, k: int)
    requires Contains(url, core) && parts == Split(core, '/') && 0 <= k < |parts|
    ensures Contains(url, parts[k])
  {
    SplitPiecesOccur(core, '/', k);
    var i := ContainsOccurs(url, core);
    ContainsInSlice(url, i, i + |core|, parts[k]);
  }

  /** Index of the first segment that is a shortcode, or |parts| when none is:
      the `for part in parts: ... return part` scan. */
  function FirstShortcodeIndex(parts: seq<string>): (k: nat)
    ensures k <= |parts|
    ensures k < |parts| ==> IsShortcode(parts[k])
    ensures forall j :: 0 <= j < k ==> !IsShortcode(parts[j])
  {
    if parts == [] then 0
    else if IsShortcode(parts[0]) then 0
    else 1 + FirstShortcodeIndex(parts[1..])
  }

  /** extract_shortcode: the first segment of the URL that is a shortcode, or
      None exactly when no segment is one. A found shortcode occurs in the URL. */
  function ExtractShortcode(url: string): (r: Option<string>)
    ensures r.None? <==> forall k :: 0 <= k < |Segments(url)| ==> !IsShortcode(Segments(url)[k])
    ensures r.Some? ==> IsShortcode(r.value) && Contains(url, r.value)
    ensures r.Some? ==> exists k :: 0 <= k < |Segments(url)| && Segments(url)[k] == r.value &&
                          forall j :: 0 <= j < k ==> !IsShortcode(Segments(url)[j])
  {
    var parts := Segments(url);
    var k := FirstShortcodeIndex(parts);
    if k < |parts| then Some(parts[k]) else None
  }

  /** Where the guard at app.py:149-159 stops, or the shortcode it lets
      through. */
  datatype Gate =
    | EmptyUrl        // "Please paste a valid Instagram Post or Reel URL."
    | NotInstagram    // "Invalid URL. ..."
    | NoShortcode     // "Couldn't extract shortcode from URL."
    | Accepted(shortcode: string)

  /** The three checks, in the source's order: the empty URL is refused
      first, then a URL without the host, then one without a shortcode; only a
      URL passing all three reaches the network. */
  function CheckUrl(url: string): (g: Gate)
    ensures g == EmptyUrl <==> url == []
    ensures g == NotInstagram <==> url != [] && !Contains(url, Host)
    ensures g == NoShortcode <==> url != [] && Contains(url, Host) && ExtractShortcode(url).None?
    ensures g.Accepted? ==> Contains(url, Host) && ExtractShortcode(url) == Some(g.shortcode)
    ensures g.Accepted? ==> IsShortcode(g.shortcode) && Contains(url, g.shortcode)
  {
    if url == [] then EmptyUrl
    else if !Contains(url, Host) then NotInstagram
    else
      var code := ExtractShortcode(url);
      // `if not shortcode` refuses None and the empty string alike.
      if code.None? || code.value == [] then NoShortcode
      else Accepted(code.value)
  }

  lemma HostIsNotShortcode()
    ensures !IsShortcode(Host)
  {
    assert Host[9] == '.';
  }

  lemma SchemeIsNotShortcode()
    ensures !IsShortcode("https:")
  {
    assert "https:"[5] == ':';
  }

  /** A shortcode holds no '/'. */
  lemma ShortcodeHasNoSlash(code: string)
    requires IsShortcode(code)
    ensures '/' !in code
  {
    forall i | 0 <= i < |code| ensures code[i] != '/' {
      assert IsShortcodeChar(code[i]);
    }
  }

  /** The path of a canonical post URL splits into five segments of which
      the code is the first shortcode. */
  lemma PostPathSegments(code: string)
    requires IsShortcode(code)
    ensures var parts := Split("https://instagram.com/p/" + code, '/');
            |parts| == 5 && FirstShortcodeIndex(parts) == 4 && parts[4] == code
  {
    ShortcodeHasNoSlash(code);
    var s1 := "p" + "/" + code;
    var s2 := "instagram.com" + "/" + s1;
    var s3 := "" + "/" + s2;
    var s4 := "https:" + "/" + s3;
    PostUrlParts(code);
    var p0, p1, p2, p3 := Split(s4, '/'), Split(s3, '/'), Split(s2, '/'), Split(s1, '/');
    assert p3 == ["p", code] by {
      SplitWithoutSeparator(code, '/');
      SplitAfterPiece("p", code, '/');
    }
    assert p2 == [Host] + p3 by { SplitAfterPiece(Host, s1, '/'); }
    assert p1 == [""] + p2 by { SplitAfterPiece("", s2, '/'); }
    assert p0 == ["https:"] + p1 by { SplitAfterPiece("https:", s3, '/'); }
    assert FirstShortcodeIndex(p3) == 1 by {
      assert p3[1..] == [code];
    }
    assert FirstShortcodeIndex(p2) == 2 by {
      HostIsNotShortcode();
      assert p2[1..] == p3;
    }
    assert FirstShortcodeIndex(p1) == 3 by {
      assert p1[1..] == p2;
    }
    assert FirstShortcodeIndex(p0) == 4 by {
      SchemeIsNotShortcode();
      assert p0[1..] == p1;
    }
  }

  /** A canonical post URL is its four path pieces joined by '/'. */
  lemma PostUrlParts(code: string)
    ensures "https:" + "/" + ("" + "/" + ("instagram.com" + "/" + ("p" + "/" + code)))
            == "https://instagram.com/p/" + code
  {
    var prefix := "https://instagram.com/p/";
    var joined := "https:" + "/" + ("" + "/" + ("instagram.com" + "/" + ("p" + "/" + code)));
    assert |joined| == |prefix| + |code|;
    forall i | 0 <= i < |joined| ensures joined[i] == (prefix + code)[i] {
      if i < |prefix| {
        assert joined[i] == prefix[i];
      }
    }
  }

  /** The trailing '/' of a canonical post URL is all that strip("/") removes. */
  lemma PostUrlTrimmed(code: string)
    requires IsShortcode(code)
    ensures Trim("https://instagram.com/p/" + code + "/", {'/'}) == "https://instagram.com/p/" + code
  {
    var core := "https://instagram.com/p/" + code;
    var url := core + "/";
    assert TrimStart(url, {'/'}) == url by {
      assert url[0] == 'h';
    }
    assert TrimEnd(url, {'/'}) == core by {
      assert url[|url| - 1] == '/' && url[..|url| - 1] == core;
      assert core[|core| - 1] == code[|code| - 1];
      assert IsShortcodeChar(code[|code| - 1]);
    }
  }

  lemma PostUrlHasHost(code: string)
    ensures Contains("https://instagram.com/p/" + code + "/", Host)
  {
    var url := "https://instagram.com/p/" + code + "/";
    assert url[8..8 + |Host|] == Host;
    OccursAtContains(url, Host, 8);
  }

  /** `https://instagram.com/p/<code>/` passes the guard with its code, for
      every shortcode. */
  lemma PostUrlAccepted(code: string)
    requires IsShortcode(code)
    ensures ExtractShortcode("https://instagram.com/p/" + code + "/") == Some(code)
    ensures CheckUrl("https://instagram.com/p/" + code + "/") == Accepted(code)
  {
    var url := "https://instagram.com/p/" + code + "/";
    assert Segments(url) == Split("https://instagram.com/p/" + code, '/') by {
      PostUrlTrimmed(code);
    }
    PostPathSegments(code);
    PostUrlHasHost(code);
  }

  /** Text that does not contain the host is refused before any extraction. */
  lemma NotAUrl()
    ensures CheckUrl("not a url") == NotInstagram
  {
  }
}
