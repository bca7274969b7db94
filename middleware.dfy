/**
 * The request middleware: a classification of the pathname into known routes
 * and short codes, a response that passes the request on either way, and the
 * `matcher` pattern that decides for which paths the middleware runs at all.
 */
module Middleware {
  import opened JsStrings
  import opened Utils

  /**
   * The skip test of `middleware`: raw prefix tests, two exact matches and
   * "contains a dot". A prefix test is on characters, not on path segments.
   */
  predicate IsKnownRoute(pathname: string)
  {
    || StartsWith(pathname, "/_next")
    || StartsWith(pathname, "/api")
    || StartsWith(pathname, "/code")
    || pathname == "/healthz"
    || pathname == "/"
    || Includes(pathname, ".")
  }

  /**
   * What a Next.js middleware can answer: pass the request on, rewrite it, or
   * redirect. This middleware never rewrites or redirects; `Handle`'s contract
   * rules both out.
   */
  datatype Action =
    | PassThrough
    | Rewrite(destination: string)
    | Redirect(location: string)

  /** `middleware(request)`: both branches return `NextResponse.next()`. */
  function Handle(pathname: string): (a: Action)
    ensures a == PassThrough
  {
    if IsKnownRoute(pathname) then PassThrough else PassThrough
  }

  /** The answer does not depend on the path, so the classification has no effect. */
  lemma HandleIgnoresPath(p: string, q: string)
    ensures Handle(p) == Handle(q)
  {
  }

  /** A prefix test on `"/" + s` is the same test on `s`. */
  lemma StartsWithAfterSlash(s: string, p: string)
    ensures StartsWith("/" + s, "/" + p) <==> StartsWith(s, p)
  {
    if StartsWith(s, p) {
      assert ("/" + s)[..|p| + 1] == "/" + s[..|p|];
    }
    if StartsWith("/" + s, "/" + p) {
      assert s[..|p|] == ("/" + s)[1..|p| + 1];
    }
  }

  /**
   * Any path beginning with `/_next`, `/api` or `/code` is a known route,
   * including paths such as `/apiXYZ1` and `/codeAB1` that only share the prefix.
   */
  lemma PrefixIsKnownRoute(rest: string)
    ensures IsKnownRoute("/_next" + rest)
    ensures IsKnownRoute("/api" + rest)
    ensures IsKnownRoute("/code" + rest)
  {
    assert ("/_next" + rest)[..6] == "/_next";
    assert ("/api" + rest)[..4] == "/api";
    assert ("/code" + rest)[..5] == "/code";
  }

  /** A path with a dot anywhere is a known route. */
  lemma DottedPathIsKnownRoute(pathname: string, i: int)
    requires 0 <= i < |pathname| && pathname[i] == '.'
    ensures IsKnownRoute(pathname)
  {
    IncludesChar(pathname, '.');
  }

  /** `/healthz` and `/` match only exactly: `/healthz/` is classed as a short code. */
  lemma ExactRoutes()
    ensures IsKnownRoute("/healthz") && IsKnownRoute("/")
    ensures !IsKnownRoute("/healthz/")
  {
    var p := "/healthz/";
    assert p[1] == 'h';
    assert !StartsWith(p, "/_next") by { assert p[..6][1] != "/_next"[1]; }
    assert !StartsWith(p, "/api") by { assert p[..4][1] != "/api"[1]; }
    assert !StartsWith(p, "/code") by { assert p[..5][1] != "/code"[1]; }
    assert p != "/healthz" && p != "/" by { assert |p| == 9; }
    IncludesChar(p, '.');
    assert '.' !in p;
  }

  /** A string of letters and digits contains no dot. */
  lemma AlnumHasNoDot(c: string)
    requires AllAlnum(c)
    ensures !Includes("/" + c, ".")
  {
    var p := "/" + c;
    IncludesChar(p, '.');
    forall i | 0 <= i < |p| ensures p[i] != '.' {
      if i > 0 {
        assert p[i] == c[i - 1];
      }
    }
  }

  /**
   * For a valid code `c`, the path `"/" + c` is classed as a known route
   * exactly when `c` begins with `api` or `code`, or is `healthz`.
   */
  lemma ValidCodeClassification(c: string)
    requires IsValidCode(c)
    ensures IsKnownRoute("/" + c) <==> StartsWith(c, "api") || StartsWith(c, "code") || c == "healthz"
  {
    StartsWithAfterSlash(c, "_next");
    StartsWithAfterSlash(c, "api");
    StartsWithAfterSlash(c, "code");
    assert !StartsWith(c, "_next") by {
      assert c[..5][0] == c[0] != '_';
    }
    assert ("/" + c == "/healthz") <==> c == "healthz" by {
      if "/" + c == "/healthz" {
        assert c == ("/" + c)[1..];
      }
    }
    assert "/" + c != "/" by {
      assert |"/" + c| > 1;
    }
    AlnumHasNoDot(c);
  }

  /** `healthz` is a valid code, yet its path is classed as a known route. */
  lemma HealthzCodeClassedAsKnownRoute()
    ensures IsValidCode("healthz") && IsKnownRoute("/healthz")
  {
  }

  /** `apiXYZ1` is a valid code, yet its path is classed as a known route. */
  lemma ApiPrefixedCodeClassedAsKnownRoute()
    ensures IsValidCode("apiXYZ1") && IsKnownRoute("/apiXYZ1")
  {
    PrefixIsKnownRoute("XYZ1");
    assert "/api" + "XYZ1" == "/apiXYZ1";
  }

  /** `codeAB1` is a valid code, yet its path is classed as a known route. */
  lemma CodePrefixedCodeClassedAsKnownRoute()
    ensures IsValidCode("codeAB1") && IsKnownRoute("/codeAB1")
  {
    PrefixIsKnownRoute("AB1");
    assert "/code" + "AB1" == "/codeAB1";
  }

  /** The characters a regular expression's `.` does not match. */
  predicate IsLineTerminator(ch: char)
  {
    ch == '\n' || ch == '\r' || ch == '\U{2028}' || ch == '\U{2029}'
  }

  /**
   * The negative lookahead `(?!_next/static|_next/image|favicon.ico)` fails on
   * `s`: `s` begins with one of the three alternatives, where the unescaped `.`
   * stands for any one character but a line terminator.
   */
  predicate ExcludedByLookahead(s: string)
  {
    || StartsWith(s, "_next/static")
    || StartsWith(s, "_next/image")
    || (|s| >= 11 && s[..7] == "favicon" && !IsLineTerminator(s[7]) && s[8..11] == "ico")
  }

  /** `config.matcher`: the path matches `^/((?!_next/static|_next/image|favicon.ico).*)$`. */
  predicate MatcherRuns(pathname: string)
  {
    && |pathname| >= 1
    && pathname[0] == '/'
    && !ExcludedByLookahead(pathname[1..])
    && forall i :: 1 <= i < |pathname| ==> !IsLineTerminator(pathname[i])
  }

  /**
   * Every path under `/_next/static` or `/_next/image` skips the middleware,
   * and so does every path starting `/favicon`, any one character but a line
   * terminator, then `ico` (the unescaped dot), whatever follows.
   */
  lemma MatcherExclusions(rest: string, ch: char)
    requires !IsLineTerminator(ch)
    ensures !MatcherRuns("/_next/static" + rest)
    ensures !MatcherRuns("/_next/image" + rest)
    ensures !MatcherRuns("/favicon" + [ch] + "ico" + rest)
  {
    assert !MatcherRuns("/_next/static" + rest) by {
      var t := ("/_next/static" + rest)[1..];
      assert t == "_next/static" + rest;
      assert StartsWith(t, "_next/static") by { assert t[..12] == "_next/static"; }
    }
    assert !MatcherRuns("/_next/image" + rest) by {
      var t := ("/_next/image" + rest)[1..];
      assert t == "_next/image" + rest;
      assert StartsWith(t, "_next/image") by { assert t[..11] == "_next/image"; }
    }
    assert !MatcherRuns("/favicon" + [ch] + "ico" + rest) by {
      var t := ("/favicon" + [ch] + "ico" + rest)[1..];
      assert t == "favicon" + [ch] + "ico" + rest;
      assert t[..7] == "favicon" && t[7] == ch && t[8..11] == "ico";
    }
  }

  /**
   * A path `/_next/` followed by text that starts with neither `static` nor
   * `image` and holds no line terminator does not skip the middleware (so
   * `/_next/data/...` runs it).
   */
  lemma MatcherKeepsOtherNextPaths(rest: string)
    requires !StartsWith(rest, "static") && !StartsWith(rest, "image")
    requires forall i :: 0 <= i < |rest| ==> !IsLineTerminator(rest[i])
    ensures MatcherRuns("/_next/" + rest)
  {
    var p := "/_next/" + rest;
    var t := p[1..];
    assert t == "_next/" + rest;
    assert !StartsWith(t, "_next/static") by {
      if |t| >= 12 { assert t[6..12] == rest[..6]; }
    }
    assert !StartsWith(t, "_next/image") by {
      if |t| >= 11 { assert t[6..11] == rest[..5]; }
    }
    assert !(|t| >= 11 && t[..7] == "favicon") by {
      if |t| >= 11 { assert t[..7][0] == t[0]; }
    }
    forall i | 1 <= i < |p| ensures !IsLineTerminator(p[i]) {
      if i >= 7 { assert p[i] == rest[i - 7]; }
    }
  }

  /** The middleware runs for every path made of `/` and a valid code. */
  lemma ValidCodePathsRun(c: string)
    requires IsValidCode(c)
    ensures MatcherRuns("/" + c)
  {
    var p := "/" + c;
    assert p[1..] == c;
    forall i | 1 <= i < |p| ensures !IsLineTerminator(p[i]) {
      assert p[i] == c[i - 1];
    }
  }
}
