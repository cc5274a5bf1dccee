/** The edge proxy's route table, built from the rows of one query and then swapped in whole. */
module Routes {
  import opened Options

  datatype Domain = Domain(name: string)

  datatype Redirect = Redirect(to: string, code: int)

  datatype Row = Row(
    domain: Domain, project: nat, deployment: nat, kind: string,
    redirect: Option<Redirect>,
    vmIp: Option<string>, vmPort: int, server: Option<nat>, vmId: Option<nat>)
  {
    /** The row names a reachable VM and is not a redirect. */
    predicate Proxies() { redirect.None? && vmIp.Some? }
  }

  datatype Backend = Backend(ip: string, port: int)

  datatype Route = Route(
    project: nat, deployment: nat, kind: string,
    backends: seq<Backend>, redirectTo: string, redirectCode: int)

  const LOOPBACK := "127.0.0.1"

  /** The address to dial for a row: VMs of this server are reached over loopback. */
  function BackendOf(r: Row, self: Option<nat>): Backend {
    var address := if r.vmIp.Some? then r.vmIp.value else "";
    Backend(if r.server.Some? && self.Some? && r.server == self then LOOPBACK else address, r.vmPort)
  }

  // ---- what the table should hold --------------------------------------------------------------

  /** Row `i` is the first of its domain to name its VM; a row without a VM id repeats nothing. */
  ghost predicate First(rows: seq<Row>, i: nat)
    requires i < |rows|
  {
    && rows[i].Proxies()
    && (rows[i].vmId.Some? ==>
          forall j :: 0 <= j < i && rows[j].domain == rows[i].domain && rows[j].Proxies() ==>
            rows[j].vmId != rows[i].vmId)
  }

  /** The rows that supply the backends of a domain, in order. */
  ghost function Selected(rows: seq<Row>, d: Domain): seq<Row>
    decreases |rows|
  {
    if rows == [] then []
    else
      var n := |rows| - 1;
      Selected(rows[..n], d) + if rows[n].domain == d && First(rows, n) then [rows[n]] else []
  }

  /** The last redirect row of a domain. */
  ghost function LastRedirect(rows: seq<Row>, d: Domain): Option<Row> {
    if rows == [] then None
    else
      var n := |rows| - 1;
      if rows[n].domain == d && rows[n].redirect.Some? then Some(rows[n]) else LastRedirect(rows[..n], d)
  }

  /** The last non-empty deployment kind among the rows. */
  function LastKind(rows: seq<Row>): string {
    if rows == [] then ""
    else if rows[|rows| - 1].kind != "" then rows[|rows| - 1].kind
    else LastKind(rows[..|rows| - 1])
  }

  function BackendsOf(rows: seq<Row>, self: Option<nat>): seq<Backend> {
    seq(|rows|, i requires 0 <= i < |rows| => BackendOf(rows[i], self))
  }

  /** The route of a domain, or `None` if the domain has neither a redirect nor a reachable VM. */
  ghost function RouteOf(rows: seq<Row>, d: Domain, self: Option<nat>): Option<Route> {
    var redirect := LastRedirect(rows, d);
    var chosen := Selected(rows, d);
    if redirect.Some? then Some(RedirectRoute(redirect.value))
    else if chosen == [] then None
    else
      var last := chosen[|chosen| - 1];
      Some(Route(last.project, last.deployment, LastKind(chosen), BackendsOf(chosen, self), "", 0))
  }

  function RedirectRoute(r: Row): Route {
    if r.redirect.None? then Route(r.project, r.deployment, r.kind, [], "", 0)
    else Route(r.project, r.deployment, r.kind, [], r.redirect.value.to, r.redirect.value.code)
  }

  // ---- properties of the description -----------------------------------------------------------

  lemma FirstInPrefix(rows: seq<Row>, n: nat, i: nat)
    requires i < n <= |rows|
    ensures First(rows[..n], i) <==> First(rows, i)
  {
    assert forall j :: 0 <= j <= i ==> rows[..n][j] == rows[j];
  }

  /** A row is selected exactly when it is the first of its domain to name its VM. */
  lemma {:induction false} SelectedIff(rows: seq<Row>, d: Domain, r: Row)
    ensures r in Selected(rows, d)
            <==> exists i :: 0 <= i < |rows| && rows[i] == r && r.domain == d && First(rows, i)
    decreases |rows|
  {
    if rows != [] {
      var n := |rows| - 1;
      SelectedIff(rows[..n], d, r);
      forall i | 0 <= i < n ensures First(rows[..n], i) <==> First(rows, i) {
        FirstInPrefix(rows, n, i);
      }
      if r in Selected(rows[..n], d) {
        var i :| 0 <= i < |rows[..n]| && rows[..n][i] == r && r.domain == d && First(rows[..n], i);
        assert rows[i] == r;
      }
      if exists i :: 0 <= i < |rows| && rows[i] == r && r.domain == d && First(rows, i) {
        var i :| 0 <= i < |rows| && rows[i] == r && r.domain == d && First(rows, i);
        if i < n {
          assert rows[..n][i] == r;
        }
      }
    }
  }

  /** Every VM that some row of the domain makes reachable is among the selected rows. */
  lemma {:induction false} EveryVmSelected(rows: seq<Row>, d: Domain, k: nat)
    requires k < |rows| && rows[k].domain == d && rows[k].Proxies()
    ensures exists r :: r in Selected(rows, d) && r.vmId == rows[k].vmId
    decreases k
  {
    if First(rows, k) {
      SelectedIff(rows, d, rows[k]);
    } else {
      var j :| 0 <= j < k && rows[j].domain == d && rows[j].Proxies() && rows[j].vmId == rows[k].vmId;
      EveryVmSelected(rows, d, j);
    }
  }

  /** No VM is selected twice. */
  lemma {:induction false} NoVmTwice(rows: seq<Row>, d: Domain, a: nat, b: nat)
    requires a < b < |Selected(rows, d)| && Selected(rows, d)[a].vmId.Some?
    ensures Selected(rows, d)[a].vmId != Selected(rows, d)[b].vmId
    decreases |rows|
  {
    var n := |rows| - 1;
    var before := Selected(rows[..n], d);
    if b < |before| {
      NoVmTwice(rows[..n], d, a, b);
    } else {
      assert Selected(rows, d)[b] == rows[n] && First(rows, n);
      SelectedIff(rows[..n], d, before[a]);
      var j :| 0 <= j < n && rows[..n][j] == before[a] && First(rows[..n], j);
      assert rows[j] == before[a];
    }
  }

  // ---- a route, by the positions of its rows -------------------------------------------------------

  /** Row `i` is a proxy row of `d` whose VM no earlier proxy row of `d` has. */
  ghost predicate Supplies(rows: seq<Row>, d: Domain, i: nat)
    requires i < |rows|
  {
    && rows[i].domain == d && rows[i].redirect.None? && rows[i].vmIp.Some?
    && forall j :: 0 <= j < i && rows[j].domain == d && rows[j].redirect.None? && rows[j].vmIp.Some? ==>
         rows[i].vmId.None? || rows[j].vmId != rows[i].vmId
  }

  /** Exactly the supplying rows, in the order of the query. */
  ghost predicate InOrder(rows: seq<Row>, d: Domain, at: seq<nat>) {
    && (forall k :: 0 <= k < |at| ==> at[k] < |rows|)
    && (forall k, l :: 0 <= k < l < |at| ==> at[k] < at[l])
    && (forall i: nat :: i < |rows| ==> (i in at <==> Supplies(rows, d, i)))
  }

  lemma SuppliesInPrefix(rows: seq<Row>, d: Domain, n: nat, i: nat)
    requires i < n <= |rows|
    ensures Supplies(rows[..n], d, i) <==> Supplies(rows, d, i)
  {
    assert forall j :: 0 <= j <= i ==> rows[..n][j] == rows[j];
  }

  lemma InOrderMore(rows: seq<Row>, d: Domain, before: seq<nat>, at: seq<nat>)
    requires rows != [] && InOrder(rows[..|rows| - 1], d, before)
    requires at == before + if Supplies(rows, d, |rows| - 1) then [|rows| - 1] else []
    ensures InOrder(rows, d, at)
  {
    var n := |rows| - 1;
    forall i: nat | i < |rows| ensures i in at <==> Supplies(rows, d, i) {
      if i < n {
        SuppliesInPrefix(rows, d, n, i);
        assert i in at <==> i in before;
      }
    }
  }

  lemma {:induction false} PositionsOf(rows: seq<Row>, d: Domain) returns (at: seq<nat>)
    ensures InOrder(rows, d, at) && |at| == |Selected(rows, d)|
    ensures forall k :: 0 <= k < |at| ==> Selected(rows, d)[k] == rows[at[k]]
  {
    at := [];
    if rows != [] {
      var n := |rows| - 1;
      var before := PositionsOf(rows[..n], d);
      at := before + if Supplies(rows, d, n) then [n] else [];
      InOrderMore(rows, d, before, at);
      assert rows[n].domain == d && First(rows, n) <==> Supplies(rows, d, n);
    }
  }

  /** Row `j` is the last redirect row of `d`. */
  ghost predicate LastRedirectAt(rows: seq<Row>, d: Domain, j: nat) {
    && j < |rows| && rows[j].domain == d && rows[j].redirect.Some?
    && forall i :: j < i < |rows| && rows[i].domain == d ==> rows[i].redirect.None?
  }

  lemma {:induction false} LastRedirectIs(rows: seq<Row>, d: Domain)
    ensures LastRedirect(rows, d).None? ==>
              forall i :: 0 <= i < |rows| && rows[i].domain == d ==> rows[i].redirect.None?
    ensures LastRedirect(rows, d).Some? ==>
              exists j: nat :: LastRedirectAt(rows, d, j) && LastRedirect(rows, d) == Some(rows[j])
  {
    if rows != [] {
      var n := |rows| - 1;
      LastRedirectIs(rows[..n], d);
      if rows[n].domain == d && rows[n].redirect.Some? {
        assert LastRedirectAt(rows, d, n);
      } else if LastRedirect(rows[..n], d).Some? {
        var j: nat :| LastRedirectAt(rows[..n], d, j) && LastRedirect(rows[..n], d) == Some(rows[..n][j]);
        assert LastRedirectAt(rows, d, j);
      }
    }
  }

  /** The kind is the last one that some supplying row names. */
  ghost predicate KindOf(rows: seq<Row>, at: seq<nat>, kind: string)
    requires forall k :: 0 <= k < |at| ==> at[k] < |rows|
  {
    if kind == "" then forall k :: 0 <= k < |at| ==> rows[at[k]].kind == ""
    else exists k :: 0 <= k < |at| && rows[at[k]].kind == kind && forall l :: k < l < |at| ==> rows[at[l]].kind == ""
  }

  lemma {:induction false} LastKindIs(rows: seq<Row>, chosen: seq<Row>, at: seq<nat>)
    requires |chosen| == |at|
    requires forall k :: 0 <= k < |at| ==> at[k] < |rows| && chosen[k] == rows[at[k]]
    ensures KindOf(rows, at, LastKind(chosen))
    decreases |at|
  {
    if at != [] {
      var n := |at| - 1;
      LastKindIs(rows, chosen[..n], at[..n]);
      var kind := LastKind(chosen);
      if chosen[n].kind != "" {
        assert rows[at[n]].kind == kind;
      } else if kind != "" {
        var k :| 0 <= k < n && rows[at[..n][k]].kind == kind && forall l :: k < l < n ==> rows[at[..n][l]].kind == "";
        assert rows[at[k]].kind == kind;
        assert forall l :: k < l < n ==> at[..n][l] == at[l];
      }
    }
  }

  /** The backend that a row stands for: its own port, at its address or over loopback on its own server. */
  predicate Dials(r: Row, self: Option<nat>, b: Backend) {
    && b.port == r.vmPort
    && (r.server.Some? && r.server == self ==> b.ip == "127.0.0.1")
    && (r.server.None? || r.server != self ==> r.vmIp == Some(b.ip))
  }

  /** What the table says of a domain that has no redirect row. */
  ghost predicate ProxiesTo(rows: seq<Row>, self: Option<nat>, at: seq<nat>, route: Option<Route>)
    requires forall k :: 0 <= k < |at| ==> at[k] < |rows|
  {
    if at == [] then route == None
    else
      && route.Some? && route.value.redirectTo == "" && route.value.redirectCode == 0
      && |route.value.backends| == |at|
      && (forall k :: 0 <= k < |at| ==> Dials(rows[at[k]], self, route.value.backends[k]))
      && route.value.project == rows[at[|at| - 1]].project
      && route.value.deployment == rows[at[|at| - 1]].deployment
      && KindOf(rows, at, route.value.kind)
  }

  /** And of one that has: its last redirect. */
  ghost predicate RedirectsTo(rows: seq<Row>, d: Domain, route: Option<Route>) {
    exists j: nat :: LastRedirectAt(rows, d, j)
      && route == Some(Route(rows[j].project, rows[j].deployment, rows[j].kind, [],
                             rows[j].redirect.value.to, rows[j].redirect.value.code))
  }

  lemma ProxyRoute(rows: seq<Row>, d: Domain, self: Option<nat>, at: seq<nat>)
    requires LastRedirect(rows, d).None? && InOrder(rows, d, at) && |at| == |Selected(rows, d)|
    requires forall k :: 0 <= k < |at| ==> Selected(rows, d)[k] == rows[at[k]]
    ensures ProxiesTo(rows, self, at, RouteOf(rows, d, self))
  {
    var chosen := Selected(rows, d);
    LastKindIs(rows, chosen, at);
    if at != [] {
      var backends := RouteOf(rows, d, self).value.backends;
      forall k | 0 <= k < |at| ensures Dials(rows[at[k]], self, backends[k]) {
        assert at[k] in at && Supplies(rows, d, at[k]);
        assert backends[k] == BackendOf(chosen[k], self);
      }
    }
  }

  /**
   * The table, row by row. A domain with a redirect row has its last redirect and no backends. Any other has
   * one backend for each VM, from the first row that names it and in the order of the rows, reached over
   * loopback exactly on its own server; project and deployment come from the last of those rows.
   */
  lemma RouteByPositions(rows: seq<Row>, d: Domain, self: Option<nat>) returns (at: seq<nat>)
    ensures InOrder(rows, d, at)
    ensures if exists i :: 0 <= i < |rows| && rows[i].domain == d && rows[i].redirect.Some?
            then RedirectsTo(rows, d, RouteOf(rows, d, self))
            else ProxiesTo(rows, self, at, RouteOf(rows, d, self))
  {
    at := PositionsOf(rows, d);
    LastRedirectIs(rows, d);
    if LastRedirect(rows, d).None? {
      ProxyRoute(rows, d, self, at);
    }
  }

  // ---- the loop --------------------------------------------------------------------------------

  /** The VM ids that the proxy rows of a domain have named. */
  ghost function SeenIds(rows: seq<Row>, d: Domain): set<nat> {
    set i | 0 <= i < |rows| && rows[i].domain == d && rows[i].Proxies() && rows[i].vmId.Some? :: rows[i].vmId.value
  }

  lemma SeenSnoc(rows: seq<Row>, k: nat, d: Domain)
    requires k < |rows|
    ensures SeenIds(rows[..k + 1], d)
            == SeenIds(rows[..k], d)
               + if rows[k].domain == d && rows[k].Proxies() && rows[k].vmId.Some? then {rows[k].vmId.value} else {}
  {
    var now, before := rows[..k + 1], rows[..k];
    assert forall i :: 0 <= i < k ==> now[i] == before[i];
    assert now[k] == rows[k];
    forall x ensures x in SeenIds(now, d) <==>
                     x in SeenIds(before, d)
                     || (rows[k].domain == d && rows[k].Proxies() && rows[k].vmId == Some(x))
    {
      if x in SeenIds(before, d) {
        var i :| 0 <= i < |before| && before[i].domain == d && before[i].Proxies() && before[i].vmId == Some(x);
        assert now[i] == before[i];
      }
    }
  }

  /** A row is the first of its VM exactly when its id has not been seen. */
  lemma FirstIff(rows: seq<Row>, k: nat)
    requires k < |rows| && rows[k].Proxies()
    ensures First(rows[..k + 1], k)
            <==> rows[k].vmId.None? || rows[k].vmId.value !in SeenIds(rows[..k], rows[k].domain)
  {
    var now, before := rows[..k + 1], rows[..k];
    assert forall i :: 0 <= i < k ==> now[i] == before[i];
    assert now[k] == rows[k];
    if rows[k].vmId.Some? && rows[k].vmId.value in SeenIds(before, rows[k].domain) {
      var i :| 0 <= i < |before| && before[i].domain == rows[k].domain && before[i].Proxies()
               && before[i].vmId == Some(rows[k].vmId.value);
      assert now[i].vmId == now[k].vmId;
    }
    if rows[k].vmId.Some? && !First(now, k) {
      var j :| 0 <= j < k && now[j].domain == now[k].domain && now[j].Proxies() && now[j].vmId == now[k].vmId;
      assert before[j].vmId == Some(rows[k].vmId.value);
    }
  }

  lemma SelectedSnoc(rows: seq<Row>, k: nat, d: Domain)
    requires k < |rows|
    ensures Selected(rows[..k + 1], d)
            == Selected(rows[..k], d)
               + if rows[k].domain == d && rows[k].Proxies() && First(rows[..k + 1], k) then [rows[k]] else []
    ensures LastRedirect(rows[..k + 1], d)
            == if rows[k].domain == d && rows[k].redirect.Some? then Some(rows[k]) else LastRedirect(rows[..k], d)
  {
    assert rows[..k + 1][..k] == rows[..k];
  }

  /** All that the row loop keeps about one domain. */
  datatype Entry = Entry(
    redirect: Option<Route>, seen: set<nat>, backends: seq<Backend>,
    project: Option<nat>, deployment: Option<nat>, kind: string)

  /** What it should keep, after the given rows. */
  ghost function Described(rows: seq<Row>, d: Domain, self: Option<nat>): Entry {
    var redirect, chosen := LastRedirect(rows, d), Selected(rows, d);
    Entry(
      if redirect.Some? then Some(RedirectRoute(redirect.value)) else None,
      SeenIds(rows, d),
      BackendsOf(chosen, self),
      if chosen == [] then None else Some(chosen[|chosen| - 1].project),
      if chosen == [] then None else Some(chosen[|chosen| - 1].deployment),
      LastKind(chosen))
  }

  /** What one row of the domain does to it. */
  function Absorb(e: Entry, r: Row, self: Option<nat>): Entry {
    if r.redirect.Some? then e.(redirect := Some(RedirectRoute(r)))
    else if r.vmIp.None? || (r.vmId.Some? && r.vmId.value in e.seen) then e
    else
      e.(seen := e.seen + if r.vmId.Some? then {r.vmId.value} else {},
         backends := e.backends + [BackendOf(r, self)],
         project := Some(r.project),
         deployment := Some(r.deployment),
         kind := if r.kind != "" then r.kind else e.kind)
  }

  /** A row of another domain changes nothing that is described. */
  lemma DescribedElsewhere(rows: seq<Row>, k: nat, d: Domain, self: Option<nat>)
    requires k < |rows| && rows[k].domain != d
    ensures Described(rows[..k + 1], d, self) == Described(rows[..k], d, self)
  {
    SelectedSnoc(rows, k, d);
    SeenSnoc(rows, k, d);
    assert Selected(rows[..k + 1], d) == Selected(rows[..k], d);
  }

  lemma ChosenSnoc(chosen: seq<Row>, r: Row, self: Option<nat>)
    ensures BackendsOf(chosen + [r], self) == BackendsOf(chosen, self) + [BackendOf(r, self)]
    ensures LastKind(chosen + [r]) == if r.kind != "" then r.kind else LastKind(chosen)
  {
    assert (chosen + [r])[..|chosen|] == chosen;
  }

  lemma DescribedHere(rows: seq<Row>, k: nat, self: Option<nat>)
    requires k < |rows|
    ensures Described(rows[..k + 1], rows[k].domain, self)
            == Absorb(Described(rows[..k], rows[k].domain, self), rows[k], self)
  {
    var d := rows[k].domain;
    var chosen := Selected(rows[..k], d);
    SelectedSnoc(rows, k, d);
    SeenSnoc(rows, k, d);
    if rows[k].Proxies() {
      FirstIff(rows, k);
    }
    if rows[k].Proxies() && First(rows[..k + 1], k) {
      ChosenSnoc(chosen, rows[k], self);
    } else {
      assert Selected(rows[..k + 1], d) == chosen;
    }
  }

  /**
   * The maps that the row loop fills, all keyed by domain, written as one map of records. A missing
   * key reads as the empty record, as a Go map reads its zero value.
   */
  type Tally = map<Domain, Entry>

  const NOTHING := Entry(None, {}, [], None, None, "")

  function At(m: Tally, d: Domain): Entry {
    if d in m then m[d] else NOTHING
  }

  /** The route that the merging loops make of an entry. */
  ghost function Merged(e: Entry): Option<Route> {
    if e.redirect.Some? then e.redirect
    else if e.backends == [] || e.project.None? || e.deployment.None? then None
    else Some(Route(e.project.value, e.deployment.value, e.kind, e.backends, "", 0))
  }

  lemma MergedIsRoute(rows: seq<Row>, d: Domain, self: Option<nat>)
    ensures Merged(Described(rows, d, self)) == RouteOf(rows, d, self)
  {
    assert |BackendsOf(Selected(rows, d), self)| == |Selected(rows, d)|;
  }

  /** The service object; its table is replaced as a whole. */
  class EdgeService {
    const serverId: Option<nat>
    var routes: map<Domain, Route>

    constructor (serverId: Option<nat>)
      ensures this.serverId == serverId && routes == map[]
    {
      this.serverId := serverId;
      routes := map[];
    }

    /** After loading, the table is exactly the described one, for every row list. */
    method LoadRoutes(rows: seq<Row>)
      modifies this
      ensures forall d :: d in routes <==> RouteOf(rows, d, serverId).Some?
      ensures forall d :: d in routes ==> routes[d] == RouteOf(rows, d, serverId).value
    {
      var m := ReadRows(rows, serverId);
      var table := MergeRoutes(m);
      forall d ensures Merged(At(m, d)) == RouteOf(rows, d, serverId) {
        MergedIsRoute(rows, d, serverId);
      }
      routes := table;
    }
  }

  /** The row loop. */
  method ReadRows(rows: seq<Row>, self: Option<nat>) returns (m: Tally)
    ensures forall d :: At(m, d) == Described(rows, d, self)
  {
    m := map[];
    for k := 0 to |rows|
      invariant forall d :: At(m, d) == Described(rows[..k], d, self)
    {
      var r, e := rows[k], At(m, rows[k].domain);
      if r.redirect.Some? {
        e := e.(redirect := Some(RedirectRoute(r)));
      } else if r.vmIp.Some? {
        if r.vmId.None? || r.vmId.value !in e.seen {
          if r.vmId.Some? {
            e := e.(seen := e.seen + {r.vmId.value});
          }
          e := e.(backends := e.backends + [BackendOf(r, self)],
                  project := Some(r.project),
                  deployment := Some(r.deployment));
          if r.kind != "" {
            e := e.(kind := r.kind);
          }
        }
      }
      assert e == Absorb(At(m, r.domain), r, self);
      Stepped(m, m[r.domain := e], rows, k, self);
      m := m[r.domain := e];
    }
    assert rows[..|rows|] == rows;
  }

  lemma Stepped(m: Tally, next: Tally, rows: seq<Row>, k: nat, self: Option<nat>)
    requires k < |rows|
    requires forall d :: At(m, d) == Described(rows[..k], d, self)
    requires next == m[rows[k].domain := Absorb(At(m, rows[k].domain), rows[k], self)]
    ensures forall d :: At(next, d) == Described(rows[..k + 1], d, self)
  {
    forall d ensures At(next, d) == Described(rows[..k + 1], d, self) {
      if d == rows[k].domain {
        DescribedHere(rows, k, self);
      } else {
        DescribedElsewhere(rows, k, d, self);
      }
    }
  }

  /** The two merging loops: redirects first, then the domains that have no redirect. */
  method MergeRoutes(m: Tally) returns (table: map<Domain, Route>)
    ensures forall d :: d in table <==> Merged(At(m, d)).Some?
    ensures forall d :: d in table ==> table[d] == Merged(At(m, d)).value
  {
    table := map[];
    var left := m.Keys;
    while left != {}
      invariant left <= m.Keys
      invariant forall d :: d in table <==> d in m && d !in left && m[d].redirect.Some?
      invariant forall d :: d in table ==> Some(table[d]) == m[d].redirect
      decreases left
    {
      var d :| d in left;
      left := left - {d};
      if m[d].redirect.Some? {
        table := table[d := m[d].redirect.value];
      }
    }
    left := m.Keys;
    while left != {}
      invariant left <= m.Keys
      invariant forall d :: d in table <==>
        d in m && (m[d].redirect.Some? || (d !in left && Merged(m[d]).Some?))
      invariant forall d :: d in table ==> Some(table[d]) == Merged(m[d])
      decreases left
    {
      var d :| d in left;
      left := left - {d};
      if d !in table && m[d].backends != [] && m[d].project.Some? && m[d].deployment.Some? {
        table := table[d := Route(m[d].project.value, m[d].deployment.value, m[d].kind, m[d].backends, "", 0)];
      }
    }
  }
}
