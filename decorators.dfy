/** The `htmx_only` view decorator: a request without the `HX-Request` header
    is redirected to the parent of its path, computed with Python's
    `rstrip("/")`, `split("/")` and `"/".join`. */
module Decorators {
  import opened Common
  import opened PyString

  /** The redirect target of `_wrapped`: the stripped path without its last
      segment, keeping the slash before it, or `/` when no slash is left. */
  function ParentPath(path: string): (r: string)
  {
    var parts := Split(RStrip(path, '/'), '/');
    if |parts| > 1 then Join(parts[..|parts| - 1], '/') + "/" else "/"
  }

  /** The parent path, independently of split and join: with `t` the path
      without its trailing slashes, it is `t` up to and including its last
      slash, or `/` when `t` has no slash. */
  lemma ParentPathIsPrefix(path: string)
    ensures var t := RStrip(path, '/');
            var r := ParentPath(path);
            && ('/' !in t ==> r == "/")
            && ('/' in t ==>
                  && 0 < |r| <= |t| && r == t[..|r|] && r[|r| - 1] == '/'
                  && forall k :: |r| <= k < |t| ==> t[k] != '/')
  {
    var t := RStrip(path, '/');
    var parts := Split(t, '/');
    JoinSplit(t, '/');
    var n := |parts|;
    if n > 1 {
      var j := Join(parts[..n - 1], '/');
      assert parts[..n - 1][..n - 2] == parts[..n - 2];
      assert t == j + "/" + parts[n - 1];
      assert t[..|j| + 1] == j + "/";
      assert t[|j|] == '/';
      forall k | |j| + 1 <= k < |t|
        ensures t[k] != '/'
      {
        assert t[k] == parts[n - 1][k - |j| - 1];
      }
    } else {
      assert t == parts[0];
      assert forall m :: 0 <= m < |t| ==> t[m] != '/';
    }
  }

  /** The only path that is redirected to itself is `/`. */
  lemma ParentOfItselfOnlyAtRoot(path: string)
    ensures ParentPath(path) == path <==> path == "/"
  {
    ParentPathIsPrefix(path);
    var t := RStrip(path, '/');
    if path == "/" {
      assert RStrip(path[..0], '/') == [];
    }
    if '/' in t && |t| == |path| {
      assert t == path;
    }
  }

  /** A nested path goes up one segment, whether or not it ends in a slash. */
  lemma ParentPathExample()
    ensures ParentPath("/projects/3/") == "/projects/"
  {
    var p := "/projects/3/";
    ParentPathIsPrefix(p);
    assert RStrip(p, '/') == p[..11];
    assert p[9] == '/' && p[10] == '3';
  }

  /** What the wrapped view does. */
  datatype Response = CallView | Redirect(target: string)

  /** `htmx_only(view)(request)`. The header value is absent or a string; an
      empty one counts as absent. */
  function HtmxOnly(hxRequest: Option<string>, path: string): (r: Response)
    ensures r.CallView? <==> hxRequest.Some? && hxRequest.value != []
    ensures r.Redirect? ==> r.target == ParentPath(path) && |r.target| >= 1 && r.target[|r.target| - 1] == '/'
  {
    if hxRequest.None? || hxRequest.value == [] then Redirect(ParentPath(path)) else CallView
  }
}
