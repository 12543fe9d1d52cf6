/** The gateway's choice of a route for a path, and the upstream address it forwards to. */
module Routing {
  import opened Basics
  import Text

  datatype Upstream = Upstream(name: string, host: string, port: nat, isHealthy: bool, tlsVerify: bool)

  datatype Route = Route(pathPrefix: string, upstream: Upstream, stripPrefix: bool, priority: int)

  // ----- Choosing -----

  /** The path starts with the prefix and the upstream is healthy. */
  predicate Eligible(r: Route, path: string) {
    r.pathPrefix <= path && r.upstream.isHealthy
  }

  /** The position, among the first n routes, of the last eligible one of greatest priority. */
  function Best(routes: seq<Route>, path: string, n: nat): (r: Option<nat>)
    requires n <= |routes|
    ensures r.Some? ==> r.value < n
  {
    if n == 0 then None
    else
      var best := Best(routes, path, n - 1);
      if !Eligible(routes[n - 1], path) then best
      else if best.Some? && routes[best.value].priority > routes[n - 1].priority then best
      else Some(n - 1)
  }

  function FindIndex(routes: seq<Route>, path: string): (r: Option<nat>)
    ensures r.Some? ==> r.value < |routes|
  {
    Best(routes, path, |routes|)
  }

  function FindRoute(routes: seq<Route>, path: string): Option<Route> {
    var i := FindIndex(routes, path);
    if i.Some? then Some(routes[i.value]) else None
  }

  /** Of two routes, the one of higher priority, or the later one of equal priority, wins. */
  predicate Beats(routes: seq<Route>, i: nat, j: nat)
    requires i < |routes| && j < |routes|
  {
    routes[i].priority > routes[j].priority || (routes[i].priority == routes[j].priority && i > j)
  }

  /** Route i is eligible and beats every other eligible route. */
  ghost predicate IsWinner(routes: seq<Route>, path: string, i: nat) {
    i < |routes| && Eligible(routes[i], path) &&
    forall j: nat :: j < |routes| && j != i && Eligible(routes[j], path) ==> Beats(routes, i, j)
  }

  lemma {:induction false} BestOfPrefix(routes: seq<Route>, path: string, n: nat)
    requires n <= |routes|
    ensures var best := Best(routes, path, n);
            if best.None? then forall j: nat :: j < n ==> !Eligible(routes[j], path)
            else Eligible(routes[best.value], path) &&
                 forall j: nat :: j < n && j != best.value && Eligible(routes[j], path) ==> Beats(routes, best.value, j)
  {
    if n > 0 {
      BestOfPrefix(routes, path, n - 1);
    }
  }

  /** The choice is the winner; there is none exactly when no healthy route matches. */
  lemma FindsWinner(routes: seq<Route>, path: string)
    ensures FindRoute(routes, path).None? <==>
            forall r :: r in routes ==> !(r.pathPrefix <= path && r.upstream.isHealthy)
    ensures FindIndex(routes, path).None? <==> FindRoute(routes, path).None?
    ensures forall i: nat :: FindIndex(routes, path) == Some(i) <==> IsWinner(routes, path, i)
    ensures forall i: nat :: IsWinner(routes, path, i) ==> FindRoute(routes, path) == Some(routes[i])
  {
    BestOfPrefix(routes, path, |routes|);
    var best := FindIndex(routes, path);
    if best.Some? {
      assert routes[best.value] in routes;
    }
  }

  // ----- Longest prefix -----

  /** The documented rule: an eligible route with a prefix as long as any. */
  ghost predicate IsLongestMatch(routes: seq<Route>, path: string, i: nat) {
    i < |routes| && Eligible(routes[i], path) &&
    forall r :: r in routes && Eligible(r, path) ==> |r.pathPrefix| <= |routes[i].pathPrefix|
  }

  /** On every path, the choice is a longest match if there is any match. */
  ghost predicate ChoosesLongest(routes: seq<Route>) {
    forall path :: FindIndex(routes, path).Some? ==> IsLongestMatch(routes, path, FindIndex(routes, path).value)
  }

  /** Every healthy route is beaten by a healthy route for each longer healthy prefix that extends its own. */
  ghost predicate LongerPrefixesWin(routes: seq<Route>) {
    forall i: nat, j: nat :: Extends(routes, i, j) ==> OutdoneFor(routes, i, routes[j].pathPrefix)
  }

  /** Both routes are healthy and the prefix of j is a longer one that starts with the prefix of i. */
  predicate Extends(routes: seq<Route>, i: nat, j: nat) {
    && i < |routes| && j < |routes|
    && routes[i].upstream.isHealthy && routes[j].upstream.isHealthy
    && routes[i].pathPrefix < routes[j].pathPrefix
  }

  ghost predicate OutdoneFor(routes: seq<Route>, i: nat, prefix: string)
    requires i < |routes|
  {
    exists k: nat :: && k < |routes| && routes[k].upstream.isHealthy
                     && routes[k].pathPrefix == prefix && Beats(routes, k, i)
  }

  lemma WinnerIsLongest(routes: seq<Route>, path: string)
    requires LongerPrefixesWin(routes) && FindIndex(routes, path).Some?
    ensures IsLongestMatch(routes, path, FindIndex(routes, path).value)
  {
    FindsWinner(routes, path);
    var i := FindIndex(routes, path).value;
    forall r | r in routes && Eligible(r, path)
      ensures |r.pathPrefix| <= |routes[i].pathPrefix|
    {
      var j :| 0 <= j < |routes| && routes[j] == r;
      if |routes[i].pathPrefix| < |r.pathPrefix| {
        assert routes[i].pathPrefix == path[..|routes[i].pathPrefix|];
        assert r.pathPrefix == path[..|r.pathPrefix|];
        assert Extends(routes, i, j);
      }
    }
  }

  lemma LongestMustWin(routes: seq<Route>, i: nat, j: nat)
    requires ChoosesLongest(routes)
    requires Extends(routes, i, j)
    ensures OutdoneFor(routes, i, routes[j].pathPrefix)
  {
    var path := routes[j].pathPrefix;
    FindsWinner(routes, path);
    assert Eligible(routes[j], path) && routes[j] in routes;
    var k := FindIndex(routes, path).value;
    assert IsLongestMatch(routes, path, k);
    assert routes[k].pathPrefix == path;
  }

  /** Priorities choose the longest healthy matching prefix on every path iff longer prefixes win. */
  lemma PriorityIsLongestPrefixExactly(routes: seq<Route>)
    ensures ChoosesLongest(routes) <==> LongerPrefixesWin(routes)
  {
    if LongerPrefixesWin(routes) {
      forall path | FindIndex(routes, path).Some?
        ensures IsLongestMatch(routes, path, FindIndex(routes, path).value)
      {
        WinnerIsLongest(routes, path);
      }
    }
    if ChoosesLongest(routes) {
      forall i: nat, j: nat | Extends(routes, i, j)
        ensures OutdoneFor(routes, i, routes[j].pathPrefix)
      {
        LongestMustWin(routes, i, j);
      }
    }
  }

  /** Giving every longer prefix a strictly higher priority is enough. */
  lemma StrictPrioritiesSuffice(routes: seq<Route>)
    requires forall r, r' :: r in routes && r' in routes && r.pathPrefix < r'.pathPrefix ==> r.priority < r'.priority
    ensures ChoosesLongest(routes)
  {
    forall i: nat, j: nat | Extends(routes, i, j)
      ensures OutdoneFor(routes, i, routes[j].pathPrefix)
    {
      assert routes[i] in routes && routes[j] in routes;
      assert Beats(routes, j, i);
    }
    PriorityIsLongestPrefixExactly(routes);
  }

  /** With equal priorities, such as the schema's default, the order of the list decides. */
  lemma DefaultPrioritiesDoNot(u: Upstream)
    requires u.isHealthy
    ensures !ChoosesLongest([Route("/api/v2", u, false, 100), Route("/api", u, false, 100)])
  {
    var routes := [Route("/api/v2", u, false, 100), Route("/api", u, false, 100)];
    PriorityIsLongestPrefixExactly(routes);
    assert routes[0].pathPrefix[..4] == routes[1].pathPrefix;
    assert routes[1].pathPrefix < routes[0].pathPrefix;
    assert !OutdoneFor(routes, 1, "/api/v2");
  }

  // ----- Order of the list -----

  /** The eligible routes of greatest priority are all the same route. */
  ghost predicate OneTopRoute(routes: seq<Route>, path: string) {
    forall r, r' :: IsTop(routes, path, r) && IsTop(routes, path, r') ==> r == r'
  }

  ghost predicate IsTop(routes: seq<Route>, path: string, r: Route) {
    r in routes && Eligible(r, path) && forall x :: x in routes && Eligible(x, path) ==> x.priority <= r.priority
  }

  lemma ChoiceIsTop(routes: seq<Route>, path: string)
    ensures FindRoute(routes, path).Some? ==> IsTop(routes, path, FindRoute(routes, path).value)
    ensures FindRoute(routes, path).None? ==> forall r :: r in routes ==> !Eligible(r, path)
  {
    FindsWinner(routes, path);
    var best := FindIndex(routes, path);
    if best.Some? {
      forall x | x in routes && Eligible(x, path)
        ensures x.priority <= routes[best.value].priority
      {
        var j :| 0 <= j < |routes| && routes[j] == x;
        assert IsWinner(routes, path, best.value);
      }
    }
  }

  /** Reordering never matters iff there is one top route: with distinct priorities there always is. */
  lemma OrderMattersExactly(routes: seq<Route>, path: string)
    ensures (forall other :: multiset(other) == multiset(routes) ==> FindRoute(other, path) == FindRoute(routes, path))
            <==> OneTopRoute(routes, path)
  {
    if OneTopRoute(routes, path) {
      forall other | multiset(other) == multiset(routes)
        ensures FindRoute(other, path) == FindRoute(routes, path)
      {
        SameElements(other, routes);
        ChoiceIsTop(routes, path);
        ChoiceIsTop(other, path);
        if FindRoute(other, path).Some? {
          assert IsTop(routes, path, FindRoute(other, path).value);
        }
      }
    } else {
      var r, r' :| IsTop(routes, path, r) && IsTop(routes, path, r') && r != r';
      var other := MovedLast(routes, path, r);
      var other' := MovedLast(routes, path, r');
    }
  }

  /** Distinct priorities among the matching routes make the order of the list irrelevant. */
  lemma DistinctPrioritiesOrderFree(routes: seq<Route>, other: seq<Route>, path: string)
    requires multiset(other) == multiset(routes)
    requires forall r, r' | r in routes && r' in routes && r != r' ::
               Eligible(r, path) && Eligible(r', path) ==> r.priority != r'.priority
    ensures FindRoute(other, path) == FindRoute(routes, path)
  {
    OrderMattersExactly(routes, path);
    assert OneTopRoute(routes, path);
  }

  lemma SameElements(a: seq<Route>, b: seq<Route>)
    requires multiset(a) == multiset(b)
    ensures forall r :: r in a <==> r in b
  {
    assert forall r :: r in a <==> r in multiset(a);
    assert forall r :: r in b <==> r in multiset(b);
  }

  /** A top route is chosen when it stands last. */
  lemma MovedLast(routes: seq<Route>, path: string, r: Route) returns (other: seq<Route>)
    requires IsTop(routes, path, r)
    ensures multiset(other) == multiset(routes) && FindRoute(other, path) == Some(r)
  {
    var k :| 0 <= k < |routes| && routes[k] == r;
    other := routes[..k] + routes[k + 1..] + [r];
    assert multiset(other) == multiset(routes) by {
      assert routes == routes[..k] + [r] + routes[k + 1..];
    }
    SameElements(other, routes);
    LastTopWins(other, path);
  }

  lemma LastTopWins(routes: seq<Route>, path: string)
    requires routes != [] && IsTop(routes, path, routes[|routes| - 1])
    ensures FindRoute(routes, path) == Some(routes[|routes| - 1])
  {
    var n := |routes| - 1;
    var best := Best(routes, path, n);
    assert best.Some? && Eligible(routes[best.value], path) ==> routes[best.value].priority <= routes[n].priority;
    BestOfPrefix(routes, path, n);
  }

  // ----- Failing over -----

  function Failed(routes: seq<Route>, i: nat): (r: seq<Route>)
    requires i < |routes|
  {
    routes[i := routes[i].(upstream := routes[i].upstream.(isHealthy := false))]
  }

  /** Losing a route that was not chosen changes nothing; losing the chosen one leaves the best of the rest. */
  lemma FailOver(routes: seq<Route>, path: string, i: nat)
    requires i < |routes|
    ensures FindIndex(routes, path) != Some(i) ==> FindIndex(Failed(routes, i), path) == FindIndex(routes, path)
    ensures FindIndex(routes, path) == Some(i) ==>
            forall k: nat :: FindIndex(Failed(routes, i), path) == Some(k) <==>
              k < |routes| && k != i && Eligible(routes[k], path) &&
              forall j: nat :: j < |routes| && j != i && j != k && Eligible(routes[j], path) ==> Beats(routes, k, j)
  {
    var after := Failed(routes, i);
    FindsWinner(routes, path);
    FindsWinner(after, path);
    forall k: nat
      ensures IsWinner(after, path, k) <==>
              k < |routes| && k != i && Eligible(routes[k], path) &&
              forall j: nat :: j < |routes| && j != i && j != k && Eligible(routes[j], path) ==> Beats(routes, k, j)
    {
      WinnerAmongRest(routes, path, i, k);
    }
    var best := FindIndex(routes, path);
    if best.None? {
      assert forall j :: 0 <= j < |routes| ==> routes[j] in routes;
      assert forall r :: r in after ==> !Eligible(r, path);
    } else if best.value != i {
      assert IsWinner(routes, path, best.value);
      assert IsWinner(after, path, best.value);
    }
  }

  lemma WinnerAmongRest(routes: seq<Route>, path: string, i: nat, k: nat)
    requires i < |routes|
    ensures IsWinner(Failed(routes, i), path, k) <==>
            k < |routes| && k != i && Eligible(routes[k], path) &&
            forall j: nat :: j < |routes| && j != i && j != k && Eligible(routes[j], path) ==> Beats(routes, k, j)
  {
    var after := Failed(routes, i);
    assert !Eligible(after[i], path);
    assert forall j: nat :: j < |routes| && j != i ==> after[j] == routes[j];
    if k < |routes| && k != i {
      assert forall j: nat :: j < |routes| && j != i ==> Beats(after, k, j) == Beats(routes, k, j);
    }
  }

  // ----- The upstream address -----

  function ForwardedPath(route: Route, path: string): string {
    if route.stripPrefix && route.pathPrefix <= path then path[|route.pathPrefix|..] else path
  }

  function Decimal(n: nat): (s: string)
    ensures s != "" && forall c :: c in s ==> '0' <= c <= '9'
  {
    if n < 10 then ['0' + n as char] else Decimal(n / 10) + ['0' + (n % 10) as char]
  }

  /** Reading a decimal number. */
  function ReadDecimal(s: string): int {
    if s == "" then 0 else ReadDecimal(s[..|s| - 1]) * 10 + (s[|s| - 1] as int - '0' as int)
  }

  lemma {:induction false} PortReadsBack(n: nat)
    ensures ReadDecimal(Decimal(n)) == n && (n > 0 ==> Decimal(n)[0] != '0')
  {
    var s := Decimal(n);
    if n < 10 {
      assert s[..0] == "";
    } else {
      PortReadsBack(n / 10);
      assert s[..|s| - 1] == Decimal(n / 10);
    }
  }

  function HostPort(u: Upstream): string {
    u.host + ":" + Decimal(u.port)
  }

  /** The address built for a request path; the query of the request plays no part in it. */
  function UpstreamUri(route: Route, path: string): (uri: string)
    ensures "http://" <= uri
  {
    "http://" + HostPort(route.upstream) + ForwardedPath(route, path)
  }

  /** Ends the authority of a URI (section 3.2 of RFC 3986). */
  predicate EndsAuthority(c: char) {
    c == '/' || c == '?' || c == '#'
  }

  function UpToEnd(s: string): (r: string)
    ensures r <= s
  {
    if s == "" || EndsAuthority(s[0]) then "" else [s[0]] + UpToEnd(s[1..])
  }

  /** The authority of a URI of the http scheme. */
  function Authority(uri: string): string
    requires "http://" <= uri
  {
    UpToEnd(uri[|"http://"|..])
  }

  lemma {:induction false} UpToEndOf(a: string, b: string)
    requires forall c :: c in a ==> !EndsAuthority(c)
    ensures UpToEnd(a + b) == a + UpToEnd(b)
  {
    if a == "" {
      assert a + b == b;
    } else {
      UpToEndOf(a[1..], b);
      assert (a + b)[1..] == a[1..] + b;
      assert (a + b)[0] in a;
    }
  }

  /** The authority is the host and port, and what the forwarded path adds to it. */
  lemma AuthorityOf(route: Route, path: string)
    requires forall c :: c in route.upstream.host ==> !EndsAuthority(c)
    ensures Authority(UpstreamUri(route, path)) == HostPort(route.upstream) + UpToEnd(ForwardedPath(route, path))
  {
    var hp, rest := HostPort(route.upstream), ForwardedPath(route, path);
    assert UpstreamUri(route, path)[|"http://"|..] == hp + rest;
    UpToEndOf(hp, rest);
  }

  /**
    The authority built is exactly the chosen host and port when the forwarded path is empty or starts
    with a character that ends the authority; and stripping takes off the prefix and nothing else.
   */
  lemma UriTarget(route: Route, path: string)
    requires forall c :: c in route.upstream.host ==> !EndsAuthority(c)
    ensures var rest := ForwardedPath(route, path);
            Authority(UpstreamUri(route, path)) == HostPort(route.upstream) <==> rest == "" || EndsAuthority(rest[0])
    ensures Eligible(route, path) && route.stripPrefix ==> route.pathPrefix + ForwardedPath(route, path) == path
  {
    AuthorityOf(route, path);
  }

  /**
    The address is the scheme, host and port and then the whole request path, less the prefix if the route
    strips it; the port is written as a decimal number that reads back as the port.
   */
  lemma BuiltAddress(route: Route, path: string)
    ensures var head := "http://" + route.upstream.host + ":" + Decimal(route.upstream.port);
            && head <= UpstreamUri(route, path)
            && ReadDecimal(Decimal(route.upstream.port)) == route.upstream.port
            && var stripped := if route.stripPrefix && route.pathPrefix <= path then route.pathPrefix else "";
               stripped + UpstreamUri(route, path)[|head|..] == path
  {
    var head := "http://" + route.upstream.host + ":" + Decimal(route.upstream.port);
    assert head == "http://" + HostPort(route.upstream);
    assert UpstreamUri(route, path) == head + ForwardedPath(route, path);
    PortReadsBack(route.upstream.port);
  }

  /** Every path with a leading slash that the route matches keeps its host and port as the authority. */
  ghost predicate ReachesUpstream(route: Route) {
    forall path :: Eligible(route, path) && path != "" && path[0] == '/' ==>
      Authority(UpstreamUri(route, path)) == HostPort(route.upstream)
  }

  /** The route strips nothing, or matches no path with a leading slash in which something is stripped. */
  predicate KeepsSlash(route: Route) {
    !route.stripPrefix || route.pathPrefix == "" || route.pathPrefix[0] != '/'
  }

  /** That is so exactly for such routes. */
  lemma ReachesUpstreamExactly(route: Route)
    requires route.upstream.isHealthy
    requires forall c :: c in route.upstream.host ==> !EndsAuthority(c)
    ensures ReachesUpstream(route) <==> KeepsSlash(route)
  {
    if KeepsSlash(route) {
      forall path | Eligible(route, path) && path != "" && path[0] == '/'
        ensures Authority(UpstreamUri(route, path)) == HostPort(route.upstream)
      {
        UriTarget(route, path);
      }
    } else {
      var path := route.pathPrefix + "x";
      assert ForwardedPath(route, path) == "x";
      UriTarget(route, path);
      assert Eligible(route, path) && path[0] == '/';
    }
  }

  // ----- The host named by the address -----

  /** What follows the last @ of an authority; before it stands the user information. */
  function AfterUserinfo(authority: string): string {
    if authority == "" then ""
    else
      var n := |authority| - 1;
      if authority[n] == '@' then "" else AfterUserinfo(authority[..n]) + [authority[n]]
  }

  /** The host in a host with an optional port: up to the colon, or the closing bracket of an IP literal. */
  function HostOf(s: string): string {
    if s != "" && s[0] == '[' then s[..Min(Text.IndexOf(s, ']') + 1, |s|)] else s[..Text.IndexOf(s, ':')]
  }

  function Min(x: nat, y: nat): nat {
    if x < y then x else y
  }

  /** The host that an address names (sections 3.2.1 and 3.2.2 of RFC 3986). */
  function HostNamed(uri: string): string
    requires "http://" <= uri
  {
    HostOf(AfterUserinfo(Authority(uri)))
  }

  /** A name, an IPv4 address or a bracketed IP literal. */
  predicate IsHost(h: string) {
    && (forall c :: c in h ==> !EndsAuthority(c)) && '@' !in h
    && if h != "" && h[0] == '[' then Text.IndexOf(h, ']') + 1 == |h| else ':' !in h
  }

  lemma {:induction false} NoUserinfo(a: string)
    requires '@' !in a
    ensures AfterUserinfo(a) == a
  {
    if a != "" {
      NoUserinfo(a[..|a| - 1]);
    }
  }

  lemma {:induction false} LastAt(a: string, name: string)
    requires '@' !in name
    ensures AfterUserinfo(a + "@" + name) == name
  {
    var s := a + "@" + name;
    if name != "" {
      var n := |name| - 1;
      LastAt(a, name[..n]);
      assert s[..|s| - 1] == a + "@" + name[..n];
    }
  }

  /** A string with an @ is cut at its last one. */
  lemma {:induction false} CutAtLastAt(s: string) returns (a: string, name: string)
    requires '@' in s
    ensures s == a + "@" + name && '@' !in name
  {
    var n := |s| - 1;
    assert s == s[..n] + [s[n]];
    if s[n] == '@' {
      a, name := s[..n], "";
    } else {
      a, name := CutAtLastAt(s[..n]);
      name := name + [s[n]];
    }
  }

  lemma AfterUserinfoOf(a: string, b: string)
    requires '@' !in a
    ensures AfterUserinfo(a + b) == if '@' in b then AfterUserinfo(b) else a + b
  {
    if '@' in b {
      var c, name := CutAtLastAt(b);
      assert a + b == (a + c) + "@" + name;
      LastAt(c, name);
      LastAt(a + c, name);
    } else {
      NoUserinfo(a + b);
    }
  }

  lemma HostOfHostPort(u: Upstream, more: string)
    requires IsHost(u.host)
    ensures HostOf(HostPort(u) + more) == u.host
  {
    var s, h := HostPort(u) + more, u.host;
    assert s == h + (":" + Decimal(u.port) + more);
    if h != "" && h[0] == '[' {
      var k := |h| - 1;
      assert s[..k] == h[..k] && s[k] == h[k];
      Text.IndexOfIs(s, ']', k);
      assert s[..k + 1] == h;
    } else {
      assert s[..|h|] == h && s[|h|] == ':';
      Text.IndexOfIs(s, ':', |h|);
    }
  }

  /**
    The address names the upstream's host exactly when the forwarded path brings no @ into the authority,
    or what stands after its last @ names that same host.
   */
  lemma HostNamedExactly(route: Route, path: string)
    requires IsHost(route.upstream.host)
    ensures var added := UpToEnd(ForwardedPath(route, path));
            HostNamed(UpstreamUri(route, path)) == route.upstream.host <==>
            '@' !in added || HostOf(AfterUserinfo(added)) == route.upstream.host
  {
    var hp, added := HostPort(route.upstream), UpToEnd(ForwardedPath(route, path));
    AuthorityOf(route, path);
    assert '@' !in hp;
    AfterUserinfoOf(hp, added);
    HostOfHostPort(route.upstream, added);
  }

  /** Every path with a leading slash that the route matches leads to an address that names its host. */
  ghost predicate NamesUpstream(route: Route) {
    forall path :: Eligible(route, path) && path != "" && path[0] == '/' ==>
      HostNamed(UpstreamUri(route, path)) == route.upstream.host
  }

  /** That is so for exactly the routes that keep the authority. */
  lemma NamesUpstreamExactly(route: Route)
    requires route.upstream.isHealthy && IsHost(route.upstream.host)
    ensures NamesUpstream(route) <==> KeepsSlash(route)
  {
    if KeepsSlash(route) {
      forall path | Eligible(route, path) && path != "" && path[0] == '/'
        ensures HostNamed(UpstreamUri(route, path)) == route.upstream.host
      {
        HostNamedExactly(route, path);
      }
    } else {
      var other := if route.upstream.host == "x" then "y" else "x";
      OtherHostNamed(route, other);
      var path := route.pathPrefix + ("@" + other);
      assert Eligible(route, path) && path[0] == '/';
    }
  }

  /** A name without any delimiter. */
  predicate PlainName(name: string) {
    forall c :: c in name ==> !EndsAuthority(c) && c != '@' && c != ':' && c != '['
  }

  /** The input that shows it: what follows the prefix and an @ is the host named. */
  lemma OtherHostNamed(route: Route, other: string)
    requires route.stripPrefix && IsHost(route.upstream.host) && PlainName(other)
    ensures HostNamed(UpstreamUri(route, route.pathPrefix + ("@" + other))) == other
  {
    var hp, added := HostPort(route.upstream), "@" + other;
    assert ForwardedPath(route, route.pathPrefix + added) == added;
    UpToEndOf(added, "");
    assert added + "" == added;
    AuthorityOf(route, route.pathPrefix + added);
    assert hp + added == hp + "@" + other;
    LastAt(hp, other);
    HostOfPlainName(other);
  }

  lemma HostOfPlainName(name: string)
    requires PlainName(name)
    ensures HostOf(name) == name
  {
    Text.IndexOfAbsent(name, ':');
    assert name != "" ==> name[0] in name;
    assert name[..|name|] == name;
  }
}
