/**
  How a plot's id travels in addresses: `plot_url` and `route` of rust/src/server.rs, and
  `uuidFromLocation` of rust/assets/app.html.
 */
module Locations {
  import opened Wrappers
  import opened Characters

  predicate IsIdChar(c: char) {
    'A' <= c <= 'Z' || 'a' <= c <= 'z' || '0' <= c <= '9' || c == '-'
  }

  predicate IsId(s: string) {
    s != "" && forall c :: c in s ==> IsIdChar(c)
  }

  // ---------- The tab ----------

  /** The group of `^<prefix>([A-Za-z0-9-]+)\/?$`. */
  function MatchId(prefix: string, s: string): Option<string> {
    if !(prefix <= s) then None
    else
      var rest := s[|prefix|..];
      var id := if rest != "" && rest[|rest| - 1] == '/' then rest[..|rest| - 1] else rest;
      if IsId(id) then Some(id) else None
  }

  function UuidFromLocation(hash: string, pathname: string): Option<string> {
    var h := MatchId("#plot/", hash);
    if h.Some? then h else MatchId("/plot/", pathname)
  }

  /** The pattern matches exactly an id behind the prefix, with at most one slash at the end, and finds that id. */
  lemma MatchesExactlyWhen(prefix: string, s: string, id: string)
    ensures MatchId(prefix, s) == Some(id) <==> IsId(id) && (s == prefix + id || s == prefix + id + "/")
  {
    if IsId(id) && (s == prefix + id || s == prefix + id + "/") {
      var rest := s[|prefix|..];
      assert rest == id || rest == id + "/";
      assert id[|id| - 1] in id;
    }
    if MatchId(prefix, s) == Some(id) {
      var rest := s[|prefix|..];
      assert s == prefix + rest;
      assert rest == id || rest == id + "/";
    }
  }

  // ---------- The server ----------

  const API: string := "/api/plot/"

  /** `url.split('?').next()`. */
  function PathOf(url: string): string {
    if url == "" || url[0] == '?' then "" else [url[0]] + PathOf(url[1..])
  }

  /** `trim_end_matches('/')`. */
  function TrimSlashes(s: string): string {
    if s != "" && s[|s| - 1] == '/' then TrimSlashes(s[..|s| - 1]) else s
  }

  /** Which plot `route` looks up. */
  function RoutedId(url: string): Option<string> {
    var path := PathOf(url);
    if API <= path then Some(TrimSlashes(path[|API|..])) else None
  }

  function Repeat(c: char, n: nat): string {
    if n == 0 then "" else Repeat(c, n - 1) + [c]
  }

  lemma {:induction false} PathIsKept(path: string, query: string)
    requires '?' !in path && (query == "" || query[0] == '?')
    ensures PathOf(path + query) == path
  {
    if path != "" {
      PathIsKept(path[1..], query);
      assert (path + query)[1..] == path[1..] + query;
      assert path == [path[0]] + path[1..];
    }
  }

  lemma {:induction false} SlashesAreTrimmed(id: string, n: nat)
    requires id == "" || id[|id| - 1] != '/'
    ensures TrimSlashes(id + Repeat('/', n)) == id
  {
    if n == 0 {
      assert id + Repeat('/', n) == id;
    } else {
      SlashesAreTrimmed(id, n - 1);
      assert (id + Repeat('/', n))[..|id + Repeat('/', n)| - 1] == id + Repeat('/', n - 1);
    }
  }

  /** The request that the tab makes for an id finds that id, whatever slashes or query follow. */
  lemma RequestFindsId(id: string, slashes: nat, query: string)
    requires IsId(id) && (query == "" || query[0] == '?')
    ensures RoutedId("/api/plot/" + id + Repeat('/', slashes) + query) == Some(id)
  {
    var path := API + (id + Repeat('/', slashes));
    OnlySlashes(slashes);
    assert id[|id| - 1] in id;
    PathIsKept(path, query);
    assert API + id + Repeat('/', slashes) + query == path + query;
    assert path[|API|..] == id + Repeat('/', slashes);
    SlashesAreTrimmed(id, slashes);
  }

  lemma {:induction false} OnlySlashes(n: nat)
    ensures forall c :: c in Repeat('/', n) ==> c == '/'
  {
    if n != 0 { OnlySlashes(n - 1); }
  }

  /** The address handed out for a plot leads the tab to ask the server for that plot, whatever its path was. */
  lemma PlotUrlLeadsToPlot(id: string, pathname: string)
    requires IsId(id)
    ensures var found := UuidFromLocation("#plot/" + id, pathname);
      found == Some(id) && RoutedId("/api/plot/" + found.value) == Some(id)
  {
    MatchesExactlyWhen("#plot/", "#plot/" + id, id);
    RequestFindsId(id, 0, "");
    assert API + id + Repeat('/', 0) + "" == API + id;
  }

  // ---------- Spelled out ----------

  /** The characters that an id may have. */
  lemma IdCharactersAreSpelledOut(c: char)
    ensures IsIdChar(c) <==>
              || c in "ABCDEFGHIJKLMNOPQRSTUVWXYZ" || c in "abcdefghijklmnopqrstuvwxyz"
              || c in "0123456789" || c == '-'
  {
    UpperCase(c);
    LowerCase(c);
    Digits(c);
  }

  /** The hash decides, and an old-style path only where the hash names no plot. */
  lemma LocationNamesPlotExactlyWhen(hash: string, pathname: string, id: string)
    requires IsId(id)
    ensures UuidFromLocation(hash, pathname) == Some(id) <==>
              || hash == "#plot/" + id || hash == "#plot/" + id + "/"
              || ((pathname == "/plot/" + id || pathname == "/plot/" + id + "/")
                  && forall other :: IsId(other) ==> hash != "#plot/" + other && hash != "#plot/" + other + "/")
  {
    MatchesExactlyWhen("#plot/", hash, id);
    MatchesExactlyWhen("/plot/", pathname, id);
    var h := MatchId("#plot/", hash);
    if h.Some? {
      MatchesExactlyWhen("#plot/", hash, h.value);
    }
    forall other | IsId(other) && (hash == "#plot/" + other || hash == "#plot/" + other + "/")
      ensures h == Some(other)
    {
      MatchesExactlyWhen("#plot/", hash, other);
    }
  }

  /** Only addresses below the plot endpoint are looked up. */
  lemma OnlyPlotRequestsAreRouted(path: string, query: string)
    requires '?' !in path && (query == "" || query[0] == '?')
    ensures RoutedId(path + query).Some? <==> "/api/plot/" <= path
  {
    PathIsKept(path, query);
  }
}
