/** The attachment name: `url.split("/").pop() || ""`, the last
    '/'-separated segment of the url.
 */
module Segments {

  /** `s.split("/")`: the '/'-free pieces between separators, in order. There
      is always at least one piece; a leading, trailing or doubled '/' yields
      an empty piece. Built from the end, so the last piece is the one the
      attachment name is taken from. */
  function Split(s: string): (parts: seq<string>)
    ensures |parts| >= 1
    ensures forall i :: 0 <= i < |parts| ==> '/' !in parts[i]
    decreases |s|
  {
    if s == [] then [""]
    else
      var init := Split(s[..|s| - 1]);
      var c := s[|s| - 1];
      if c == '/' then init + [""]
      else init[..|init| - 1] + [init[|init| - 1] + [c]]
  }

  /** `parts.join("/")`. */
  function Join(parts: seq<string>): string
    requires |parts| >= 1
    decreases |parts|
  {
    if |parts| == 1 then parts[0]
    else Join(parts[..|parts| - 1]) + "/" + parts[|parts| - 1]
  }

  /** Splitting then joining gives the string back. */
  lemma {:induction false} JoinSplit(s: string)
    ensures Join(Split(s)) == s
    decreases |s|
  {
    if s != [] {
      var pre := s[..|s| - 1];
      var c := s[|s| - 1];
      var init := Split(pre);
      var n := |init|;
      JoinSplit(pre);
      assert s == pre + [c];
      if c == '/' {
        var parts := init + [""];
        assert Split(s) == parts;
        assert parts[..n] == init;
        assert Join(parts) == Join(init) + "/" + "";
      } else {
        var last := init[n - 1];
        var parts := init[..n - 1] + [last + [c]];
        assert Split(s) == parts;
        if n == 1 {
          assert Join(parts) == last + [c];
          assert Join(init) == last;
        } else {
          assert parts[..n - 1] == init[..n - 1];
          assert Join(parts) == Join(init[..n - 1]) + "/" + (last + [c]);
          assert Join(init) == Join(init[..n - 1]) + "/" + last;
        }
      }
    }
  }

  /** `name` is a '/'-free suffix of `s` that reaches back to a '/' or to
      the start of `s`: the final segment of `s`. */
  predicate FinalSegment(name: string, s: string) {
    && '/' !in name
    && |name| <= |s|
    && s[|s| - |name|..] == name
    && (|name| == |s| || s[|s| - |name| - 1] == '/')
  }

  /** The last piece of the split is the final segment. */
  lemma {:induction false} LastPieceIsFinal(s: string)
    ensures FinalSegment(Split(s)[|Split(s)| - 1], s)
    decreases |s|
  {
    if s != [] {
      var pre := s[..|s| - 1];
      LastPieceIsFinal(pre);
      var init := Split(pre);
      var last := init[|init| - 1];
      var c := s[|s| - 1];
      if c != '/' {
        var name := last + [c];
        assert Split(s)[|Split(s)| - 1] == name;
        assert s == pre + [c];
        assert s[|s| - |name|..] == pre[|pre| - |last|..] + [c];
      }
    }
  }

  /** A final segment is never shorter than another '/'-free segment
      ending the same string: the longer one would contain the '/'. */
  lemma FinalSegmentLongest(a: string, b: string, s: string)
    requires FinalSegment(a, s) && FinalSegment(b, s)
    ensures |b| <= |a|
  {
    if |a| < |b| {
      assert false;
    }
  }

  /** A string has only one final segment. */
  lemma FinalSegmentUnique(a: string, b: string, s: string)
    requires FinalSegment(a, s) && FinalSegment(b, s)
    ensures a == b
  {
    FinalSegmentLongest(a, b, s);
    FinalSegmentLongest(b, a, s);
  }

  /** The attachment name stored for `url`. The `|| ""` of the source
      replaces an empty last piece by an empty string, which changes
      nothing; it is kept to mirror the expression. */
  function AttachmentName(url: string): (name: string)
    ensures FinalSegment(name, url)
    ensures '/' !in url ==> name == url
    ensures |url| > 0 && url[|url| - 1] == '/' ==> name == ""
  {
    var parts := Split(url);
    LastPieceIsFinal(url);
    var last := parts[|parts| - 1];
    if last == "" then "" else last
  }

  /** The stored name is exactly the final segment of the url: a string is
      the name of `url` if and only if it is its final segment. */
  lemma AttachmentNameIsFinalSegment(url: string, name: string)
    ensures name == AttachmentName(url) <==> FinalSegment(name, url)
  {
    if FinalSegment(name, url) {
      FinalSegmentUnique(name, AttachmentName(url), url);
    }
  }
}
