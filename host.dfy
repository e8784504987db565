/** `Host` (`host.py`): turns a local path below a root directory into the
    public URL of that path, `scheme://netloc/relative/path`, through
    `urllib.parse.urlunparse`. */
module Hosts {
  import opened Results
  import opened Paths

  /** `Host`: the scheme and network location of the site, and the local
      directory that is served as its `/`. */
  datatype Host = Host(scheme: string, netloc: string, rootDir: FilePath)

  /** The schemes `urllib.parse.uses_netloc` lists: with one of them, a URL
      without a network location still gets the `//` of an empty one. */
  const UsesNetloc: set<string> := {
    "", "ftp", "http", "gopher", "nntp", "telnet", "imap", "wais", "file", "mms", "https", "shttp",
    "snews", "prospero", "rtsp", "rtsps", "rtspu", "rsync", "svn", "svn+ssh", "sftp", "nfs", "git",
    "git+ssh", "ws", "wss", "itms-services"}

  /** `urllib.parse.urlunsplit`: the parts put together, each separator written
      only when the part after it is non-empty. */
  function UrlUnsplit(scheme: string, netloc: string, url: string, query: string, fragment: string): string {
    Unsplit(scheme, netloc, scheme in UsesNetloc, url, query, fragment)
  }

  /** `urlunsplit` once it is known whether the scheme is one of `uses_netloc`. */
  function Unsplit(scheme: string, netloc: string, usesNetloc: bool, url: string, query: string, fragment: string): string {
    var withNetloc :=
      if netloc != "" || (scheme != "" && usesNetloc && !("//" <= url)) then
        "//" + netloc + (if url != "" && url[0] != '/' then "/" + url else url)
      else url;
    var withScheme := if scheme != "" then scheme + ":" + withNetloc else withNetloc;
    var withQuery := if query != "" then withScheme + "?" + query else withScheme;
    if fragment != "" then withQuery + "#" + fragment else withQuery
  }

  /** `urllib.parse.urlunparse`: the parameters join the path after a `;`. */
  function UrlUnparse(scheme: string, netloc: string, url: string, params: string, query: string, fragment: string): string {
    UrlUnsplit(scheme, netloc, if params != "" then url + ";" + params else url, query, fragment)
  }

  /** The components of a relative path joined with `/`, as `as_posix` writes them. */
  function JoinPath(parts: seq<string>): string
    decreases |parts|
  {
    if parts == [] then ""
    else if |parts| == 1 then parts[0]
    else parts[0] + "/" + JoinPath(parts[1..])
  }

  /** Components as `pathlib` holds them: never empty and never holding a separator. */
  predicate ValidParts(parts: seq<string>) {
    forall i :: 0 <= i < |parts| ==> parts[i] != "" && '/' !in parts[i]
  }

  /** The path part of the URL: `/` for the root itself, otherwise
      `Path("/").joinpath(path.relative_to(root)).as_posix()`, with a `/`
      appended for a directory. */
  function UrlPath(rel: seq<string>, isDir: bool): string {
    if rel == [] then "/"
    else "/" + JoinPath(rel) + (if isDir then "/" else "")
  }

  /** `path_to_url`: the URL of `path`, or the `ValueError` of a path that is
      not below the root. `isDirOnDisk` stands for `Path(path).is_dir()`. */
  function PathToUrl(h: Host, path: FilePath, params: string, query: string, fragment: string,
                     isDir: bool, isDirOnDisk: bool): (r: Result<string>)
    ensures r.Success? <==> RelativeTo(path, h.rootDir).Success?
    ensures r.Failure? ==> r.error == PathError
  {
    if path == h.rootDir then Success(UrlUnparse(h.scheme, h.netloc, "/", params, query, fragment))
    else match RelativeTo(path, h.rootDir)
      case Failure(err) => Failure(err)
      case Success(rel) =>
        var pathStr := "/" + JoinPath(rel);
        var pathStr := if isDir || isDirOnDisk then pathStr + "/" else pathStr;
        Success(UrlUnparse(h.scheme, h.netloc, pathStr, params, query, fragment))
  }

  /** What precedes the path in every URL of a host: `scheme:` and `//netloc`,
      the latter also when the scheme is one that uses a network location. */
  function Authority(h: Host): string {
    AuthorityWith(h, h.scheme in UsesNetloc)
  }

  /** `Authority` once it is known whether the scheme is one of `uses_netloc`. */
  function AuthorityWith(h: Host, usesNetloc: bool): string {
    (if h.scheme != "" then h.scheme + ":" else "") + NetlocPrefix(h, usesNetloc)
  }

  function NetlocPrefix(h: Host, usesNetloc: bool): string {
    if h.netloc != "" || (h.scheme != "" && usesNetloc) then "//" + h.netloc else ""
  }

  /** What follows the path: `;params`, `?query` and `#fragment`, each only when non-empty. */
  function Tail(params: string, query: string, fragment: string): string {
    (if params != "" then ";" + params else "")
    + (if query != "" then "?" + query else "")
    + (if fragment != "" then "#" + fragment else "")
  }

  lemma JoinPathFirst(parts: seq<string>)
    requires parts != []
    ensures JoinPath(parts) == parts[0] + (if |parts| > 1 then "/" + JoinPath(parts[1..]) else "")
  {
  }

  /** The path part starts with one `/`, never two, when its components are valid. */
  lemma UrlPathShape(rel: seq<string>, isDir: bool)
    requires ValidParts(rel)
    ensures |UrlPath(rel, isDir)| > 0 && UrlPath(rel, isDir)[0] == '/' && !("//" <= UrlPath(rel, isDir))
  {
    if rel != [] {
      JoinPathFirst(rel);
      var s := UrlPath(rel, isDir);
      assert s[1] == rel[0][0];
    }
  }

  lemma Concat3(a: string, b: string, c: string)
    ensures a + b + c == a + (b + c)
  {
  }

  /** A separator and a part written after `x` only when the part is non-empty. */
  lemma Suffix(x: string, sep: string, part: string)
    ensures (if part != "" then x + sep + part else x) == x + (if part != "" then sep + part else "")
  {
    if part != "" {
      Concat3(x, sep, part);
    }
  }

  /** The network location part of `urlunsplit` on a path that starts with one `/`. */
  lemma NetlocLayout(h: Host, usesNetloc: bool, url: string)
    requires |url| > 0 && url[0] == '/' && !("//" <= url)
    ensures (if h.netloc != "" || (h.scheme != "" && usesNetloc && !("//" <= url)) then
               "//" + h.netloc + (if url != "" && url[0] != '/' then "/" + url else url)
             else url) == NetlocPrefix(h, usesNetloc) + url
  {
  }

  /** The scheme part of `urlunsplit`. */
  lemma SchemeLayout(h: Host, usesNetloc: bool, url: string)
    ensures (if h.scheme != "" then h.scheme + ":" + (NetlocPrefix(h, usesNetloc) + url) else NetlocPrefix(h, usesNetloc) + url)
         == AuthorityWith(h, usesNetloc) + url
  {
    if h.scheme != "" {
      Concat3(h.scheme + ":", NetlocPrefix(h, usesNetloc), url);
      Concat3(h.scheme, ":", NetlocPrefix(h, usesNetloc) + url);
    }
  }

  lemma UnsplitLayout(h: Host, usesNetloc: bool, url: string, query: string, fragment: string)
    requires |url| > 0 && url[0] == '/' && !("//" <= url)
    ensures Unsplit(h.scheme, h.netloc, usesNetloc, url, query, fragment)
         == AuthorityWith(h, usesNetloc) + url + Tail("", query, fragment)
  {
    var q := if query != "" then "?" + query else "";
    var f := if fragment != "" then "#" + fragment else "";
    var withScheme := AuthorityWith(h, usesNetloc) + url;
    assert Unsplit(h.scheme, h.netloc, usesNetloc, url, query, fragment) == withScheme + q + f by {
      NetlocLayout(h, usesNetloc, url);
      SchemeLayout(h, usesNetloc, url);
      Suffix(withScheme, "?", query);
      Suffix(withScheme + q, "#", fragment);
    }
    assert withScheme + q + f == withScheme + Tail("", query, fragment) by {
      assert Tail("", query, fragment) == q + f;
      Concat3(withScheme, q, f);
    }
  }

  /** `urlunsplit` on a path that starts with one `/`: authority, path, query, fragment. */
  lemma UrlUnsplitLayout(h: Host, url: string, query: string, fragment: string)
    requires |url| > 0 && url[0] == '/' && !("//" <= url)
    ensures UrlUnsplit(h.scheme, h.netloc, url, query, fragment) == Authority(h) + url + Tail("", query, fragment)
  {
    UnsplitLayout(h, h.scheme in UsesNetloc, url, query, fragment);
  }

  /** `urlunparse` on a path that starts with one `/`: authority, path, tail. */
  lemma UrlUnparseLayout(h: Host, path: string, params: string, query: string, fragment: string)
    requires |path| > 0 && path[0] == '/' && !("//" <= path)
    ensures UrlUnparse(h.scheme, h.netloc, path, params, query, fragment) == Authority(h) + path + Tail(params, query, fragment)
  {
    var url := if params != "" then path + ";" + params else path;
    var p := if params != "" then ";" + params else "";
    var rest := Tail("", query, fragment);
    assert url == path + p by {
      if params != "" {
        Concat3(path, ";", params);
      }
    }
    assert |url| > 0 && url[0] == '/' && !("//" <= url) by {
      if params != "" && |path| == 1 {
        assert url[1] == ';';
      } else if params != "" {
        assert path[1] == url[1];
      }
    }
    UrlUnsplitLayout(h, url, query, fragment);
    assert Tail(params, query, fragment) == p + rest by {
      var q := if query != "" then "?" + query else "";
      var f := if fragment != "" then "#" + fragment else "";
      assert rest == q + f;
      Concat3(p, q, f);
    }
    Regroup(Authority(h), path, p, rest);
  }

  lemma Regroup(a: string, b: string, c: string, d: string)
    ensures a + (b + c) + d == a + b + (c + d)
  {
  }

  /** Every URL the host makes is its authority, the path below the root, and the tail. */
  lemma PathToUrlLayout(h: Host, path: FilePath, params: string, query: string, fragment: string,
                        isDir: bool, isDirOnDisk: bool)
    requires RelativeTo(path, h.rootDir).Success? && ValidParts(RelativeTo(path, h.rootDir).value)
    ensures PathToUrl(h, path, params, query, fragment, isDir, isDirOnDisk)
         == Success(Authority(h) + UrlPath(RelativeTo(path, h.rootDir).value, isDir || isDirOnDisk) + Tail(params, query, fragment))
  {
    var rel := RelativeTo(path, h.rootDir).value;
    UrlPathShape(rel, isDir || isDirOnDisk);
    UrlUnparseLayout(h, UrlPath(rel, isDir || isDirOnDisk), params, query, fragment);
    if path == h.rootDir {
      assert rel == [];
    } else {
      assert rel != [];
      var pathStr := "/" + JoinPath(rel);
      assert UrlPath(rel, isDir || isDirOnDisk) == if isDir || isDirOnDisk then pathStr + "/" else pathStr;
    }
  }

  /** A joined path starts with its first component, which holds no separator,
      followed by a separator and the rest, if any. */
  lemma JoinPathHead(parts: seq<string>)
    requires parts != [] && ValidParts(parts)
    ensures |JoinPath(parts)| >= |parts[0]| && JoinPath(parts)[..|parts[0]|] == parts[0]
    ensures forall k :: 0 <= k < |parts[0]| ==> JoinPath(parts)[k] != '/'
    ensures |parts| == 1 ==> |JoinPath(parts)| == |parts[0]|
    ensures |parts| > 1 ==> (|JoinPath(parts)| > |parts[0]| && JoinPath(parts)[|parts[0]|] == '/'
      && JoinPath(parts)[|parts[0]| + 1..] == JoinPath(parts[1..]))
  {
    var s := JoinPath(parts);
    JoinPathFirst(parts);
    forall k | 0 <= k < |parts[0]| ensures s[k] != '/' {
      assert s[k] == parts[0][k];
      assert parts[0][k] in parts[0];
    }
  }

  /** Distinct valid component lists join to distinct strings. */
  lemma {:induction false} JoinPathInjective(a: seq<string>, b: seq<string>)
    requires ValidParts(a) && ValidParts(b) && JoinPath(a) == JoinPath(b)
    ensures a == b
    decreases |a|
  {
    if a == [] || b == [] {
      if a != [] {
        JoinPathFirst(a);
      } else if b != [] {
        JoinPathFirst(b);
      }
    } else {
      JoinPathHead(a);
      JoinPathHead(b);
      var m, n := |a[0]|, |b[0]|;
      assert m == n;
      assert a[0] == b[0];
      assert |a| == 1 <==> |b| == 1;
      if |a| > 1 {
        JoinPathInjective(a[1..], b[1..]);
        assert a == [a[0]] + a[1..] && b == [b[0]] + b[1..];
      }
    }
  }

  /** Distinct component lists give distinct path parts, whether or not they are directories. */
  lemma UrlPathInjective(a: seq<string>, b: seq<string>, d: bool, e: bool)
    requires ValidParts(a) && ValidParts(b) && UrlPath(a, d) == UrlPath(b, e)
    ensures a == b
  {
    var s := UrlPath(a, d);
    if a == [] || b == [] {
      if a != [] {
        JoinPathFirst(a);
      } else if b != [] {
        JoinPathFirst(b);
      }
    } else {
      JoinPathFirst(a);
      JoinPathFirst(b);
      var ja, jb := JoinPath(a), JoinPath(b);
      assert ja[|ja| - 1] != '/' by {
        JoinPathLast(a);
      }
      assert jb[|jb| - 1] != '/' by {
        JoinPathLast(b);
      }
      assert (UrlPath(a, d)[|s| - 1] == '/') == d;
      assert (UrlPath(b, e)[|s| - 1] == '/') == e;
      assert ja == s[1..|s| - (if d then 1 else 0)] == jb;
      JoinPathInjective(a, b);
    }
  }

  lemma {:induction false} JoinPathLast(parts: seq<string>)
    requires parts != [] && ValidParts(parts)
    ensures |JoinPath(parts)| > 0 && JoinPath(parts)[|JoinPath(parts)| - 1] != '/'
    decreases |parts|
  {
    if |parts| > 1 {
      JoinPathLast(parts[1..]);
    } else {
      assert parts[0][|parts[0]| - 1] in parts[0];
    }
  }

  /** Two different paths below the root never share a URL: the index built
      from them holds one entry per file. */
  lemma PathToUrlInjective(h: Host, p: FilePath, q: FilePath, params: string, query: string, fragment: string,
                           d: bool, e: bool)
    requires RelativeTo(p, h.rootDir).Success? && ValidParts(RelativeTo(p, h.rootDir).value)
    requires RelativeTo(q, h.rootDir).Success? && ValidParts(RelativeTo(q, h.rootDir).value)
    requires PathToUrl(h, p, params, query, fragment, d, false) == PathToUrl(h, q, params, query, fragment, e, false)
    ensures p == q
  {
    var rp, rq := RelativeTo(p, h.rootDir).value, RelativeTo(q, h.rootDir).value;
    PathToUrlLayout(h, p, params, query, fragment, d, false);
    PathToUrlLayout(h, q, params, query, fragment, e, false);
    var a, t := Authority(h), Tail(params, query, fragment);
    var up, uq := UrlPath(rp, d), UrlPath(rq, e);
    assert a + up + t == a + uq + t;
    assert up == (a + up + t)[|a|..|a| + |up|];
    assert |up| == |uq|;
    assert uq == (a + uq + t)[|a|..|a| + |uq|];
    UrlPathInjective(rp, rq, d, e);
    assert p.parts == h.rootDir.parts + rp == q.parts;
  }

  /** The root itself becomes `/`, with the query and fragment after it. */
  lemma RootExample(h: Host, p: FilePath)
    requires h == Host("http", "www.example.com", FilePath(false, [])) && p == h.rootDir
    ensures PathToUrl(h, p, "", "a=b&c=d", "e", false, false) == Success("http://www.example.com" + "/" + "?a=b&c=d#e")
  {
    assert RelativeTo(p, h.rootDir) == Success([]);
    PathToUrlLayout(h, p, "", "a=b&c=d", "e", false, false);
    AuthorityExample(h);
    assert UrlPath([], false) == "/";
    assert Tail("", "a=b&c=d", "e") == "?a=b&c=d#e";
  }

  lemma AuthorityExample(h: Host)
    requires h.scheme == "http" && h.netloc == "www.example.com"
    ensures Authority(h) == "http://www.example.com"
  {
  }

  /** A file below the root becomes its path from `/`. */
  lemma FileExample(h: Host, p: FilePath)
    requires h == Host("http", "www.example.com", FilePath(false, [])) && p == FilePath(false, ["sample"])
    ensures PathToUrl(h, p, "", "a=b&c=d", "e", false, false) == Success("http://www.example.com" + "/sample" + "?a=b&c=d#e")
  {
    var rel := ["sample"];
    assert RelativeTo(p, h.rootDir) == Success(rel);
    PathToUrlLayout(h, p, "", "a=b&c=d", "e", false, false);
    AuthorityExample(h);
    assert UrlPath(rel, false) == "/sample";
    assert Tail("", "a=b&c=d", "e") == "?a=b&c=d#e";
  }

  /** The same path taken as a directory ends with `/`. */
  lemma DirectoryExample(h: Host, p: FilePath)
    requires h == Host("http", "www.example.com", FilePath(false, [])) && p == FilePath(false, ["sample"])
    ensures PathToUrl(h, p, "", "a=b&c=d", "e", true, false) == Success("http://www.example.com" + "/sample/" + "?a=b&c=d#e")
  {
    var rel := ["sample"];
    assert RelativeTo(p, h.rootDir) == Success(rel);
    PathToUrlLayout(h, p, "", "a=b&c=d", "e", true, false);
    AuthorityExample(h);
    assert UrlPath(rel, true) == "/sample/";
    assert Tail("", "a=b&c=d", "e") == "?a=b&c=d#e";
  }
}
