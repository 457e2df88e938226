/**
 * http_parse_url: splits a URL into the host, the query (the path without its
 * leading slash) and the service that http_connect later resolves. The C code
 * copies the URL and writes NUL bytes into the copy; the parts it hands back are
 * the NUL-terminated pieces of that copy, which this module returns as strings.
 */
module Url {
  import opened Wrappers
  import opened Libc

  /** struct http_url: `protocol` is the service name given to getaddrinfo. */
  datatype Url = Url(protocol: string, host: string, query: string)

  /** The first occurrence of `c` in a NUL-free string, as strchr finds it. */
  function Find(s: string, c: char): (r: Option<nat>)
    requires c != NUL && NUL !in s
    ensures r.Some? ==> r.value < |s| && s[r.value] == c && c !in s[..r.value]
    ensures r.None? ==> c !in s
  {
    FindClear(s, c);
    StrChr(s, c)
  }

  /** What strchr passed over, on a NUL-free string. */
  lemma FindClear(s: string, c: char)
    requires c != NUL && NUL !in s
    ensures StrChr(s, c).Some? ==> c !in s[..StrChr(s, c).value]
    ensures StrChr(s, c).None? ==> c !in s
  {
    NulFree(s);
    var r := StrChr(s, c);
    if r.Some? {
      forall i | 0 <= i < r.value ensures s[..r.value][i] != c {
        assert Avoids(s, i, c);
      }
    } else {
      forall i | 0 <= i < |s| ensures s[i] != c {
        assert Avoids(s, i, c);
      }
    }
  }

  /** A NUL-free string is a whole C string. */
  lemma NulFree(s: string)
    requires NUL !in s
    ensures StrLen(s) == |s|
  {
  }

  /** The C string held by `s`: its bytes up to the first NUL. */
  function CStr(s: seq<char>): (t: string)
    ensures NUL !in t && t == s[..StrLen(s)]
  {
    CStrClear(s);
    s[..StrLen(s)]
  }

  lemma CStrClear(s: seq<char>)
    ensures NUL !in s[..StrLen(s)]
  {
    forall i | 0 <= i < StrLen(s) ensures s[..StrLen(s)][i] != NUL {
      assert Avoids(s, i, NUL);
    }
  }

  /** The text after the first "://", or the whole string when there is none. */
  function AfterScheme(s: string): (rest: string)
    ensures StrStr(s, "://").None? ==> rest == s
    ensures StrStr(s, "://").Some? ==> s == s[..StrStr(s, "://").value] + "://" + rest
    ensures NUL in rest ==> NUL in s
  {
    match StrStr(s, "://")
    case None => s
    case Some(i) => s[i + 3..]
  }

  /** The host and the query of what follows the scheme (http.c, the '/' and '#' cuts). */
  function SplitPath(rest: string): (r: (string, string))
    requires NUL !in rest
    ensures var (host, query) := r;
      && |host| <= |rest| && rest[..|host|] == host && '/' !in host
      && (|host| == |rest| ==> query == "")
      && (|host| < |rest| ==>
            && rest[|host|] == '/'
            && |host| + 1 + |query| <= |rest|
            && rest[|host| + 1..|host| + 1 + |query|] == query
            && '#' !in query
            && (|host| + 1 + |query| < |rest| ==> rest[|host| + 1 + |query|] == '#'))
  {
    match Find(rest, '/')
    case None => (rest, "")
    case Some(j) =>
      var q := rest[j + 1..];
      assert NUL !in q by { assert forall i | 0 <= i < |q| :: q[i] == rest[j + 1 + i]; }
      var query := match Find(q, '#') case None => q case Some(k) => q[..k];
      assert rest[j + 1..j + 1 + |query|] == query;
      (rest[..j], query)
  }

  /** The service named after the host's first ':', or "http" when there is none. */
  function Service(host: string): (protocol: string)
    requires NUL !in host
    ensures ':' !in host ==> protocol == "http"
    ensures ':' in host ==>
      && |protocol| < |host|
      && host[|host| - |protocol| - 1] == ':'
      && host[|host| - |protocol|..] == protocol
      && ':' !in host[..|host| - |protocol| - 1]
  {
    match Find(host, ':')
    case None => "http"
    case Some(k) => host[k + 1..]
  }

  /**
   * http_parse_url. A null URL or an empty one gives None (NULL). The URL is
   * the C string held by `url`, that is, its bytes up to the first NUL. The
   * host is what follows the first "://" up to the first '/'; the query is
   * what follows that '/' up to the first '#'; the service is taken from the
   * host, so the parsed scheme is never kept.
   */
  function ParseUrl(url: Option<string>): (r: Option<Url>)
    ensures r.None? <==> url.None? || StrLen(url.value) == 0
    ensures r.Some? ==>
      var rest := AfterScheme(CStr(url.value));
      (r.value.host, r.value.query) == SplitPath(rest) && r.value.protocol == Service(r.value.host)
  {
    if url.None? || StrLen(url.value) == 0 then None
    else
      var rest := AfterScheme(CStr(url.value));
      var (host, query) := SplitPath(rest);
      assert NUL !in host by { assert forall i | 0 <= i < |host| :: host[i] == rest[i]; }
      Some(Url(Service(host), host, query))
  }

  /**
   * Splitting loses only the scheme and the fragment: the text after the scheme
   * is the host, then (when there is a '/') the slash, the query and a dropped
   * tail that is empty or starts with '#'.
   */
  lemma Recombine(url: string)
    requires ParseUrl(Some(url)).Some?
    ensures var u := ParseUrl(Some(url)).value;
            var rest := AfterScheme(CStr(url));
            rest == u.host
            || exists tail :: rest == u.host + "/" + u.query + tail && (tail == [] || tail[0] == '#')
  {
    RecombinePath(AfterScheme(CStr(url)));
  }

  /** The host, a slash, the query and the fragment put back together give what SplitPath split. */
  lemma RecombinePath(rest: string)
    requires NUL !in rest
    ensures var (host, query) := SplitPath(rest);
            rest == host
            || exists tail :: rest == host + "/" + query + tail && (tail == [] || tail[0] == '#')
  {
    var (host, query) := SplitPath(rest);
    var h := |host|;
    if h < |rest| {
      var n := h + 1 + |query|;
      var tail := rest[n..];
      assert rest == host + "/" + query + tail by {
        assert rest[..h] == host && rest[h] == '/' && rest[h + 1..n] == query;
        assert rest == rest[..h] + [rest[h]] + rest[h + 1..n] + rest[n..];
      }
    } else {
      assert rest == rest[..h];
    }
  }

  /** Find answers the first occurrence: a position with `c` and no `c` before it. */
  lemma FindFirst(s: string, c: char, k: nat)
    requires c != NUL && NUL !in s
    requires k < |s| && s[k] == c && c !in s[..k]
    ensures Find(s, c) == Some(k)
  {
  }

  lemma NoScheme(s: string)
    requires ':' !in s
    ensures AfterScheme(s) == s
  {
  }

  /** The result of ParseUrl, piece by piece, for a URL whose C string is `s`. */
  lemma ParseUrlOf(s: string)
    requires NUL !in s && s != []
    ensures var (host, query) := SplitPath(AfterScheme(s));
            ParseUrl(Some(s)) == Some(Url(Service(host), host, query))
  {
    NulFree(s);
    assert s[..StrLen(s)] == s;
  }

  lemma SchemeOfExample()
    ensures AfterScheme("http://a.io:80/x#y") == "a.io:80/x#y"
  {
    var s := "http://a.io:80/x#y";
    assert OccursAt(s, "://", 4);
    forall i | 0 <= i < 4 ensures !OccursAt(s, "://", i) {
      assert s[i..i + 3][0] == s[i] != ':';
    }
  }

  lemma SlashOfExample()
    ensures Find("a.io:80/x#y", '/') == Some(7)
    ensures "a.io:80/x#y"[8..] == "x#y" && "a.io:80/x#y"[..7] == "a.io:80"
  {
    FindFirst("a.io:80/x#y", '/', 7);
  }

  lemma SplitOfExample()
    ensures SplitPath("a.io:80/x#y") == ("a.io:80", "x")
  {
    SlashOfExample();
    FindFirst("x#y", '#', 1);
    assert "x#y"[..1] == "x";
  }

  lemma ServiceOfExample()
    ensures Service("a.io:80") == "80"
  {
    FindFirst("a.io:80", ':', 4);
  }

  /** A port after the host becomes the service; the scheme and the fragment are dropped. */
  lemma ExampleWithPortAndFragment()
    ensures ParseUrl(Some("http://a.io:80/x#y")) == Some(Url("80", "a.io:80", "x"))
  {
    ParseUrlOf("http://a.io:80/x#y");
    SchemeOfExample();
    SplitOfExample();
    ServiceOfExample();
  }

  lemma SchemeOfBareHost()
    ensures AfterScheme("example.com") == "example.com"
  {
    NoScheme("example.com");
  }

  lemma SplitOfBareHost()
    ensures SplitPath("example.com") == ("example.com", "")
  {
    assert Find("example.com", '/') == None;
  }

  lemma ServiceOfBareHost()
    ensures Service("example.com") == "http"
  {
    assert Find("example.com", ':') == None;
  }

  /** Without a scheme, a slash or a colon the whole URL is the host, the query is "" and the service "http". */
  lemma ExampleBareHost()
    ensures ParseUrl(Some("example.com")) == Some(Url("http", "example.com", ""))
  {
    ParseUrlOf("example.com");
    SchemeOfBareHost();
    SplitOfBareHost();
    ServiceOfBareHost();
  }

  lemma ExampleEmpty()
    ensures ParseUrl(Some("")) == None && ParseUrl(None) == None
  {
  }
}
