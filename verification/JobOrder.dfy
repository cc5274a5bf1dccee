/**
 The order in which a workflow's jobs run: a depth-first topological sort over the `needs` lists,
 with the visited and in-progress marks and the output list updated in place.
 */
module JobOrder {
  import opened Options
  import opened Text

  type JobId = string

  /** The `needs` list of every job of the workflow. */
  type Jobs = map<JobId, seq<JobId>>

  datatype Error = Cycle(id: JobId) | NotFound(id: JobId)

  datatype Marks = Marks(visited: set<JobId>, temp: set<JobId>, out: seq<JobId>)

  datatype Result = Ok(marks: Marks) | Err(error: Error)

  // ---- sorting names ---------------------------------------------------------------------------

  /** Lexicographic order, as Go compares strings. */
  predicate Leq(a: string, b: string) {
    if a == [] then true
    else if b == [] then false
    else a[0] < b[0] || (a[0] == b[0] && Leq(a[1..], b[1..]))
  }

  lemma {:induction false} LeqTotal(a: string, b: string)
    ensures Leq(a, b) || Leq(b, a)
  {
    if a != [] && b != [] {
      LeqTotal(a[1..], b[1..]);
    }
  }

  lemma {:induction false} LeqAntisymmetric(a: string, b: string)
    requires Leq(a, b) && Leq(b, a)
    ensures a == b
  {
    if a != [] && b != [] {
      LeqAntisymmetric(a[1..], b[1..]);
      assert a == [a[0]] + a[1..] && b == [b[0]] + b[1..];
    }
  }

  lemma {:induction false} LeqTransitive(a: string, b: string, c: string)
    requires Leq(a, b) && Leq(b, c)
    ensures Leq(a, c)
  {
    if a != [] && b != [] && c != [] && a[0] == b[0] == c[0] {
      LeqTransitive(a[1..], b[1..], c[1..]);
    }
  }

  /** The first difference decides, and a proper prefix comes first. */
  ghost predicate ComesBefore(a: string, b: string) {
    (|a| < |b| && a == b[..|a|]) || exists k :: DiffersAt(a, b, k)
  }

  predicate DiffersAt(a: string, b: string, k: int) {
    0 <= k < |a| && k < |b| && a[..k] == b[..k] && a[k] < b[k]
  }

  lemma {:induction false} LeqIff(a: string, b: string)
    ensures Leq(a, b) <==> a == b || ComesBefore(a, b)
  {
    if a == [] || b == [] {
      assert a == [] ==> a == b[..0];
    } else {
      LeqIff(a[1..], b[1..]);
      assert a == [a[0]] + a[1..] && b == [b[0]] + b[1..];
      if a[0] < b[0] {
        assert DiffersAt(a, b, 0);
      } else if a[0] == b[0] {
        forall k | 0 <= k ensures DiffersAt(a[1..], b[1..], k) <==> DiffersAt(a, b, k + 1) {
          SameTails(a, b, k);
        }
        if ComesBefore(a, b) && !(|a| < |b| && a == b[..|a|]) {
          var k :| DiffersAt(a, b, k);
          assert DiffersAt(a[1..], b[1..], k - 1);
        }
      } else {
        forall k ensures !DiffersAt(a, b, k) {
          assert k > 0 && k < |a| && k < |b| ==> a[..k][0] != b[..k][0];
        }
        assert |a| <= |b| ==> a[0] == a[..|a|][0];
      }
    }
  }

  lemma SameTails(a: string, b: string, k: nat)
    requires a != [] && b != [] && a[0] == b[0]
    ensures k < |a[1..]| && k < |b[1..]| ==> (a[1..][..k] == b[1..][..k] <==> a[..k + 1] == b[..k + 1])
  {
    if k < |a[1..]| && k < |b[1..]| {
      assert a[..k + 1] == [a[0]] + a[1..][..k] && b[..k + 1] == [b[0]] + b[1..][..k];
      assert a[1..][..k] == a[..k + 1][1..] && b[1..][..k] == b[..k + 1][1..];
    }
  }

  predicate Sorted(s: seq<string>) { forall i, j :: 0 <= i < j < |s| ==> Leq(s[i], s[j]) }

  function Insert(x: string, s: seq<string>): (r: seq<string>)
    ensures multiset(r) == multiset(s) + multiset{x}
  {
    if s == [] then [x]
    else if Leq(x, s[0]) then assert s == [s[0]] + s[1..]; [x] + s
    else assert s == [s[0]] + s[1..]; [s[0]] + Insert(x, s[1..])
  }

  lemma {:induction false} InsertSorted(x: string, s: seq<string>)
    requires Sorted(s)
    ensures Sorted(Insert(x, s))
  {
    if s == [] {
    } else if Leq(x, s[0]) {
      forall k | 0 <= k < |s| ensures Leq(x, s[k]) {
        if k > 0 { LeqTransitive(x, s[0], s[k]); }
      }
    } else {
      LeqTotal(x, s[0]);
      InsertSorted(x, s[1..]);
      var r := Insert(x, s[1..]);
      forall k | 0 <= k < |r| ensures Leq(s[0], r[k]) {
        assert r[k] in multiset(r);
        assert r[k] == x || r[k] in s[1..];
      }
    }
  }

  /** `sort.Strings`: what matters is that the result is sorted and a permutation. */
  function SortStrings(s: seq<string>): (r: seq<string>)
    ensures multiset(r) == multiset(s) && Sorted(r)
  {
    if s == [] then []
    else
      assert s == [s[0]] + s[1..];
      InsertSorted(s[0], SortStrings(s[1..]));
      Insert(s[0], SortStrings(s[1..]))
  }

  lemma HeadLeast(a: seq<string>, x: string)
    requires Sorted(a) && x in a
    ensures Leq(a[0], x)
  {
    LeqTotal(x, x);
  }

  lemma DropHead<T>(a: seq<T>)
    requires a != []
    ensures multiset(a[1..]) == multiset(a) - multiset{a[0]}
    ensures a[0] in multiset(a)
  {
    assert a == [a[0]] + a[1..];
  }

  lemma HeadsAgree(a: seq<string>, b: seq<string>)
    requires Sorted(a) && Sorted(b) && a != [] && b != []
    requires a[0] in b && b[0] in a
    ensures a[0] == b[0]
  {
    HeadLeast(b, a[0]);
    HeadLeast(a, b[0]);
    LeqAntisymmetric(a[0], b[0]);
  }

  /** A sorted list is determined by its elements, so it hides the order it was gathered in. */
  lemma {:induction false} SortedUnique(a: seq<string>, b: seq<string>)
    requires Sorted(a) && Sorted(b) && multiset(a) == multiset(b)
    ensures a == b
    decreases |a|
  {
    assert |a| == |multiset(a)| == |multiset(b)| == |b|;
    if a != [] {
      DropHead(a);
      DropHead(b);
      HeadsAgree(a, b);
      SortedUnique(a[1..], b[1..]);
    }
  }

  // ---- the sort --------------------------------------------------------------------------------

  /** Visit one job: the recursive closure, as a function of the marks it finds. */
  function Visit(jobs: Jobs, id: JobId, m: Marks): (r: Result)
    ensures r.Ok? ==> r.marks.temp == m.temp && m.out <= r.marks.out
    decreases |jobs.Keys - m.temp|, 0
  {
    if id in m.visited then Ok(m)
    else if id in m.temp then Err(Cycle(id))
    else if id !in jobs then Err(NotFound(id))
    else
      assert jobs.Keys - (m.temp + {id}) == jobs.Keys - m.temp - {id};
      match VisitAll(jobs, SortStrings(jobs[id]), m.(temp := m.temp + {id}))
      case Err(e) => Err(e)
      case Ok(n) => Ok(Marks(n.visited + {id}, n.temp - {id}, n.out + [id]))
  }

  function VisitAll(jobs: Jobs, ids: seq<JobId>, m: Marks): (r: Result)
    ensures r.Ok? ==> r.marks.temp == m.temp && m.out <= r.marks.out
    decreases |jobs.Keys - m.temp|, 1 + |ids|
  {
    if ids == [] then Ok(m)
    else
      match Visit(jobs, ids[0], m)
      case Err(e) => Err(e)
      case Ok(n) => VisitAll(jobs, ids[1..], n)
  }

  const START := Marks({}, {}, [])

  /** The order for the given roots, or the error that stops the sort. */
  function TopoSort(jobs: Jobs, roots: seq<JobId>): Result { VisitAll(jobs, roots, START) }

  // ---- what the sort is for --------------------------------------------------------------------

  /** A chain of jobs in which each needs the next. */
  ghost predicate IsPath(jobs: Jobs, p: seq<JobId>) {
    p != [] && forall i :: 0 <= i < |p| - 1 ==> p[i] in jobs && p[i + 1] in jobs[p[i]]
  }

  ghost predicate Joins(jobs: Jobs, p: seq<JobId>, a: JobId, b: JobId) {
    IsPath(jobs, p) && p[0] == a && p[|p| - 1] == b
  }

  ghost predicate Reaches(jobs: Jobs, a: JobId, b: JobId) { exists p :: Joins(jobs, p, a, b) }

  /** As `Reaches`, by at least one edge. */
  ghost predicate Follows(jobs: Jobs, a: JobId, b: JobId) {
    exists p :: Joins(jobs, p, a, b) && |p| > 1
  }

  ghost predicate Reachable(jobs: Jobs, roots: seq<JobId>, x: JobId) {
    exists r :: r in roots && Reaches(jobs, r, x)
  }

  /** A job that no order can place: it is not defined, or it needs itself in the end. */
  ghost predicate Unplaceable(jobs: Jobs, x: JobId) { x !in jobs || Follows(jobs, x, x) }

  lemma ReachesSelf(jobs: Jobs, a: JobId)
    ensures Reaches(jobs, a, a)
  {
    assert Joins(jobs, [a], a, a);
  }

  lemma EdgeThenReaches(jobs: Jobs, a: JobId, d: JobId, b: JobId)
    requires a in jobs && d in jobs[a] && Reaches(jobs, d, b)
    ensures Follows(jobs, a, b) && Reaches(jobs, a, b)
  {
    var p :| Joins(jobs, p, d, b);
    assert Joins(jobs, [a] + p, a, b);
  }

  lemma ReachesThenEdge(jobs: Jobs, a: JobId, b: JobId, d: JobId)
    requires Reaches(jobs, a, b) && b in jobs && d in jobs[b]
    ensures Follows(jobs, a, d)
  {
    var p :| Joins(jobs, p, a, b);
    assert Joins(jobs, p + [d], a, d);
  }

  /** The output so far is a dependency order without repetition, and agrees with the marks. */
  ghost predicate Ordered(jobs: Jobs, m: Marks) {
    && (forall x :: x in m.visited <==> x in m.out)
    && (forall i, j :: 0 <= i < j < |m.out| ==> m.out[i] != m.out[j])
    && (forall i :: 0 <= i < |m.out| ==> m.out[i] in jobs)
    && (forall i, d :: 0 <= i < |m.out| && d in jobs[m.out[i]] ==> d in m.out[..i])
    && m.visited !! m.temp
  }

  lemma SameElements(a: seq<string>, b: seq<string>)
    requires multiset(a) == multiset(b)
    ensures forall x :: x in a <==> x in b
  {
    forall x ensures x in a <==> x in b {
      assert x in a <==> x in multiset(a);
      assert x in b <==> x in multiset(b);
    }
  }

  lemma AppendOrdered(jobs: Jobs, n: Marks, id: JobId)
    requires Ordered(jobs, n) && id in n.temp && id in jobs
    requires forall d :: d in jobs[id] ==> d in n.visited
    ensures Ordered(jobs, Marks(n.visited + {id}, n.temp - {id}, n.out + [id]))
  {
    var k := Marks(n.visited + {id}, n.temp - {id}, n.out + [id]);
    forall i, d | 0 <= i < |k.out| && d in jobs[k.out[i]] ensures d in k.out[..i] {
      if i < |n.out| {
        assert k.out[..i] == n.out[..i];
      } else {
        assert k.out[..i] == n.out;
      }
    }
  }

  lemma NeedsReach(jobs: Jobs, id: JobId, needs: seq<JobId>, x: JobId)
    requires id in jobs && (forall d :: d in needs ==> d in jobs[id]) && Reachable(jobs, needs, x)
    ensures Reaches(jobs, id, x)
  {
    var d :| d in needs && Reaches(jobs, d, x);
    EdgeThenReaches(jobs, id, d, x);
  }

  lemma {:induction false} VisitOrders(jobs: Jobs, id: JobId, m: Marks)
    requires Ordered(jobs, m) && Visit(jobs, id, m).Ok?
    ensures var n := Visit(jobs, id, m).marks;
            && Ordered(jobs, n) && id in n.visited && m.visited <= n.visited
            && (forall x :: x in n.visited && x !in m.visited ==> Reaches(jobs, id, x))
    decreases |jobs.Keys - m.temp|, 0
  {
    if id !in m.visited {
      var needs := SortStrings(jobs[id]);
      SameElements(needs, jobs[id]);
      var inside := m.(temp := m.temp + {id});
      assert jobs.Keys - inside.temp == jobs.Keys - m.temp - {id};
      VisitAllOrders(jobs, needs, inside);
      AppendOrdered(jobs, VisitAll(jobs, needs, inside).marks, id);
      ReachesSelf(jobs, id);
      var n := Visit(jobs, id, m).marks;
      forall x | x in n.visited && x !in m.visited && x != id ensures Reaches(jobs, id, x) {
        NeedsReach(jobs, id, needs, x);
      }
    }
  }

  lemma {:induction false} VisitAllOrders(jobs: Jobs, ids: seq<JobId>, m: Marks)
    requires Ordered(jobs, m) && VisitAll(jobs, ids, m).Ok?
    ensures var n := VisitAll(jobs, ids, m).marks;
            && Ordered(jobs, n) && m.visited <= n.visited
            && (forall d :: d in ids ==> d in n.visited)
            && (forall x :: x in n.visited && x !in m.visited ==> Reachable(jobs, ids, x))
    decreases |jobs.Keys - m.temp|, 1 + |ids|
  {
    if ids != [] {
      VisitOrders(jobs, ids[0], m);
      var first := Visit(jobs, ids[0], m).marks;
      VisitAllOrders(jobs, ids[1..], first);
      var n := VisitAll(jobs, ids, m).marks;
      forall x | x in n.visited && x !in m.visited ensures Reachable(jobs, ids, x) {
        if x !in first.visited {
          var r :| r in ids[1..] && Reaches(jobs, r, x);
          assert r in ids;
        }
      }
    }
  }

  /** The error names a job that really is undefined, or that needs itself in the end. */
  ghost predicate Blames(jobs: Jobs, e: Error) {
    match e
    case Cycle(x) => x in jobs && Follows(jobs, x, x)
    case NotFound(x) => x !in jobs
  }

  /** A failing visit has found the job it names below the one it was called on. */
  lemma {:induction false} VisitErrs(jobs: Jobs, id: JobId, m: Marks)
    requires Visit(jobs, id, m).Err?
    requires m.temp <= jobs.Keys && forall t :: t in m.temp ==> Follows(jobs, t, id)
    ensures var e := Visit(jobs, id, m).error; Reaches(jobs, id, e.id) && Blames(jobs, e)
    decreases |jobs.Keys - m.temp|, 0
  {
    ReachesSelf(jobs, id);
    if id !in m.temp && id in jobs {
      var needs := SortStrings(jobs[id]);
      SameElements(needs, jobs[id]);
      var inside := m.(temp := m.temp + {id});
      assert jobs.Keys - inside.temp == jobs.Keys - m.temp - {id};
      forall t, d | t in inside.temp && d in needs ensures Follows(jobs, t, d) {
        if t != id {
          var p :| Joins(jobs, p, t, id) && |p| > 1;
        }
        ReachesThenEdge(jobs, t, id, d);
      }
      VisitAllErrs(jobs, needs, inside);
      var e := Visit(jobs, id, m).error;
      var d :| d in needs && Reaches(jobs, d, e.id);
      EdgeThenReaches(jobs, id, d, e.id);
    }
  }

  lemma {:induction false} VisitAllErrs(jobs: Jobs, ids: seq<JobId>, m: Marks)
    requires VisitAll(jobs, ids, m).Err?
    requires m.temp <= jobs.Keys && forall t, d :: t in m.temp && d in ids ==> Follows(jobs, t, d)
    ensures var e := VisitAll(jobs, ids, m).error; Reachable(jobs, ids, e.id) && Blames(jobs, e)
    decreases |jobs.Keys - m.temp|, 1 + |ids|
  {
    if Visit(jobs, ids[0], m).Err? {
      VisitErrs(jobs, ids[0], m);
    } else {
      VisitAllErrs(jobs, ids[1..], Visit(jobs, ids[0], m).marks);
      var e := VisitAll(jobs, ids, m).error;
      var d :| d in ids[1..] && Reaches(jobs, d, e.id);
      assert d in ids;
    }
  }

  /** A refusal tells the truth about the job that it names, which the roots do reach. */
  lemma ErrorIsTrue(jobs: Jobs, roots: seq<JobId>)
    requires TopoSort(jobs, roots).Err?
    ensures var e := TopoSort(jobs, roots).error; Reachable(jobs, roots, e.id) && Blames(jobs, e)
  {
    VisitAllErrs(jobs, roots, START);
  }

  /** Along a path the positions in a dependency order go strictly down. */
  lemma {:induction false} PathDescends(jobs: Jobs, m: Marks, p: seq<JobId>, i: nat) returns (j: nat)
    requires Ordered(jobs, m) && IsPath(jobs, p)
    requires i < |m.out| && m.out[i] == p[0]
    ensures j < |m.out| && m.out[j] == p[|p| - 1]
    ensures j <= i && (|p| > 1 ==> j < i)
    decreases |p|
  {
    if |p| == 1 {
      j := i;
    } else {
      assert p[1] in jobs[p[0]];
      assert p[1] in m.out[..i];
      var k :| 0 <= k < i && m.out[..i][k] == p[1];
      var rest := p[1..];
      forall e | 0 <= e < |rest| - 1 ensures rest[e] in jobs && rest[e + 1] in jobs[rest[e]] {
        assert p[e + 1] in jobs && p[e + 1 + 1] in jobs[p[e + 1]];
      }
      j := PathDescends(jobs, m, rest, k);
    }
  }

  lemma OrderedHasNoCycle(jobs: Jobs, m: Marks, r: JobId, x: JobId)
    requires Ordered(jobs, m) && r in m.out && Reaches(jobs, r, x)
    ensures x in m.out && !Unplaceable(jobs, x)
  {
    var p :| Joins(jobs, p, r, x);
    var i :| 0 <= i < |m.out| && m.out[i] == r;
    var j := PathDescends(jobs, m, p, i);
    if Follows(jobs, x, x) {
      var q :| Joins(jobs, q, x, x) && |q| > 1;
      var k := PathDescends(jobs, m, q, j);
      assert false;
    }
  }

  /**
   The sort succeeds exactly when every job reachable from the roots is defined and lies on no
   cycle; it terminates on every input.
   */
  lemma SucceedsIff(jobs: Jobs, roots: seq<JobId>)
    ensures TopoSort(jobs, roots).Ok?
            <==> forall x :: Reachable(jobs, roots, x) ==> !Unplaceable(jobs, x)
  {
    if TopoSort(jobs, roots).Ok? {
      VisitAllOrders(jobs, roots, START);
      var n := TopoSort(jobs, roots).marks;
      forall x | Reachable(jobs, roots, x) ensures !Unplaceable(jobs, x) {
        var r :| r in roots && Reaches(jobs, r, x);
        OrderedHasNoCycle(jobs, n, r, x);
      }
    } else {
      VisitAllErrs(jobs, roots, START);
      assert Unplaceable(jobs, TopoSort(jobs, roots).error.id);
    }
  }

  /**
   On success the output lists exactly the reachable jobs, each once, and every job after all the
   jobs it needs.
   */
  lemma OutputIsDependencyOrder(jobs: Jobs, roots: seq<JobId>)
    requires TopoSort(jobs, roots).Ok?
    ensures var out := TopoSort(jobs, roots).marks.out;
            && (forall x :: x in out <==> Reachable(jobs, roots, x))
            && (forall i, j :: 0 <= i < j < |out| ==> out[i] != out[j])
            && (forall i :: 0 <= i < |out| ==> out[i] in jobs)
            && (forall i, d :: 0 <= i < |out| && d in jobs[out[i]] ==> d in out[..i])
  {
    VisitAllOrders(jobs, roots, START);
    var n := TopoSort(jobs, roots).marks;
    forall x ensures x in n.out <==> Reachable(jobs, roots, x) {
      if Reachable(jobs, roots, x) {
        var r :| r in roots && Reaches(jobs, r, x);
        OrderedHasNoCycle(jobs, n, r, x);
      }
    }
  }

  // ---- which dependency order it is ----------------------------------------------------------------

  lemma {:induction false} VisitAllInTwo(jobs: Jobs, first: seq<JobId>, rest: seq<JobId>, m: Marks)
    ensures VisitAll(jobs, first + rest, m)
            == match VisitAll(jobs, first, m)
               case Err(e) => Err(e)
               case Ok(n) => VisitAll(jobs, rest, n)
    decreases |first|
  {
    if first == [] {
      assert first + rest == rest;
    } else {
      assert (first + rest)[1..] == first[1..] + rest;
      if Visit(jobs, first[0], m).Ok? {
        VisitAllInTwo(jobs, first[1..], rest, Visit(jobs, first[0], m).marks);
      }
    }
  }

  /** `x` comes before `y` in the list. */
  ghost predicate Precedes(out: seq<JobId>, x: JobId, y: JobId) {
    exists i, j :: 0 <= i < j < |out| && out[i] == x && out[j] == y
  }

  /**
   A job that is visited neither before nor below the earlier ones comes after all that those reach.
   */
  lemma EarlierComeFirst(jobs: Jobs, ids: seq<JobId>, m: Marks, i: nat, j: nat, x: JobId)
    requires Ordered(jobs, m) && VisitAll(jobs, ids, m).Ok? && i < j < |ids|
    requires ids[j] !in m.visited && !Reachable(jobs, ids[..j], ids[j]) && Reaches(jobs, ids[i], x)
    ensures Precedes(VisitAll(jobs, ids, m).marks.out, x, ids[j])
  {
    assert ids == ids[..j] + ids[j..];
    VisitAllInTwo(jobs, ids[..j], ids[j..], m);
    VisitAllOrders(jobs, ids[..j], m);
    VisitAllOrders(jobs, ids, m);
    var before, after := VisitAll(jobs, ids[..j], m).marks, VisitAll(jobs, ids, m).marks;
    assert ids[..j][i] == ids[i] && ids[i] in before.visited;
    OrderedHasNoCycle(jobs, before, ids[i], x);
    var a :| 0 <= a < |before.out| && before.out[a] == x;
    assert ids[j] in after.visited && ids[j] !in before.visited;
    var b :| 0 <= b < |after.out| && after.out[b] == ids[j];
    forall k | 0 <= k < |before.out| ensures after.out[k] in before.visited {
      assert after.out[k] == before.out[k];
    }
    assert after.out[a] == x;
  }

  /** Roots come in the order given, each with all that it reaches, except where needs say otherwise. */
  lemma RootsInOrder(jobs: Jobs, roots: seq<JobId>, i: nat, j: nat, x: JobId)
    requires TopoSort(jobs, roots).Ok? && i < j < |roots|
    requires !Reachable(jobs, roots[..j], roots[j]) && Reaches(jobs, roots[i], x)
    ensures Precedes(TopoSort(jobs, roots).marks.out, x, roots[j])
  {
    EarlierComeFirst(jobs, roots, START, i, j, x);
  }

  /**
   What a selected job needs comes in the order of the names: a need that no need of a smaller name reaches
   comes after all that those reach.
   */
  lemma NeedsInNameOrder(jobs: Jobs, root: JobId, a: JobId, b: JobId, x: JobId)
    requires TopoSort(jobs, [root]).Ok? && root in jobs && a in jobs[root] && b in jobs[root]
    requires ComesBefore(a, b) && Reaches(jobs, a, x)
    requires forall c :: c in jobs[root] && Reaches(jobs, c, b) ==> c == b || ComesBefore(b, c)
    ensures Precedes(TopoSort(jobs, [root]).marks.out, x, b)
  {
    var needs, inside := SortStrings(jobs[root]), Marks({}, {root}, []);
    SameElements(needs, jobs[root]);
    OneRoot(jobs, root);
    var j := FirstAt(needs, b);
    var i := IndexOf(needs, a);
    SmallerNeedsMiss(jobs, needs, b, j);
    NotAfter(needs, a, b, i, j);
    EarlierComeFirst(jobs, needs, inside, i, j, x);
    PrecedesMore(VisitAll(jobs, needs, inside).marks.out, TopoSort(jobs, [root]).marks.out, x, b);
  }

  lemma VisitAllOfOne(jobs: Jobs, ids: seq<JobId>, m: Marks)
    requires |ids| == 1
    ensures VisitAll(jobs, ids, m) == Visit(jobs, ids[0], m)
  {
    var rest := ids[1..];
    assert rest == [];
    if Visit(jobs, ids[0], m).Ok? {
      assert VisitAll(jobs, rest, Visit(jobs, ids[0], m).marks) == Visit(jobs, ids[0], m);
    }
  }

  lemma OneRoot(jobs: Jobs, root: JobId)
    requires TopoSort(jobs, [root]).Ok? && root in jobs
    ensures var needs := VisitAll(jobs, SortStrings(jobs[root]), Marks({}, {root}, []));
            needs.Ok? && TopoSort(jobs, [root]).marks.out == needs.marks.out + [root]
  {
    assert START.(temp := START.temp + {root}) == Marks({}, {root}, []);
    VisitAllOfOne(jobs, [root], START);
  }

  lemma SmallerNeedsMiss(jobs: Jobs, needs: seq<JobId>, b: JobId, j: nat)
    requires Sorted(needs) && j < |needs| && needs[j] == b && b !in needs[..j]
    requires forall c :: c in needs && Reaches(jobs, c, b) ==> c == b || ComesBefore(b, c)
    ensures !Reachable(jobs, needs[..j], b)
  {
    forall c | c in needs[..j] ensures !Reaches(jobs, c, b) {
      var k :| 0 <= k < j && needs[..j][k] == c;
      assert c == needs[k] && Leq(needs[k], needs[j]);
      NotBothBefore(c, b);
    }
  }

  lemma PrecedesMore(out: seq<JobId>, more: seq<JobId>, x: JobId, y: JobId)
    requires Precedes(out, x, y) && out <= more
    ensures Precedes(more, x, y)
  {
    var i, j :| 0 <= i < j < |out| && out[i] == x && out[j] == y;
    assert more[i] == x && more[j] == y;
  }

  lemma NotBothBefore(c: string, b: string)
    requires Leq(c, b) && c != b
    ensures !ComesBefore(b, c)
  {
    LeqIff(b, c);
    if Leq(b, c) {
      LeqAntisymmetric(b, c);
    }
  }

  lemma NotAfter(s: seq<string>, a: string, b: string, i: nat, j: nat)
    requires Sorted(s) && i < |s| && j < |s| && s[i] == a && s[j] == b && ComesBefore(a, b)
    ensures i < j
  {
    LeqIff(a, b);
    if j < i {
      assert Leq(s[j], s[i]);
      LeqAntisymmetric(a, b);
      Irreflexive(a);
    } else if i == j {
      Irreflexive(a);
    }
  }

  lemma Irreflexive(a: string)
    ensures !ComesBefore(a, a)
  {
  }

  lemma IndexOf(s: seq<string>, x: string) returns (i: nat)
    requires x in s
    ensures i < |s| && s[i] == x
  {
    i :| i < |s| && s[i] == x;
  }

  lemma {:induction false} FirstAt(s: seq<string>, x: string) returns (i: nat)
    requires x in s
    ensures i < |s| && s[i] == x && x !in s[..i]
  {
    if s[0] == x {
      i := 0;
    } else {
      var k := FirstAt(s[1..], x);
      i := k + 1;
      assert s[..i] == [s[0]] + s[1..][..k];
    }
  }

  /** The two workflows list the same needs for every job, perhaps in a different order. */
  ghost predicate SameNeeds(jobs: Jobs, other: Jobs) {
    jobs.Keys == other.Keys && forall id :: id in jobs ==> multiset(jobs[id]) == multiset(other[id])
  }

  lemma {:induction false} VisitIgnoresListing(jobs: Jobs, other: Jobs, id: JobId, m: Marks)
    requires SameNeeds(jobs, other)
    ensures Visit(jobs, id, m) == Visit(other, id, m)
    decreases |jobs.Keys - m.temp|, 0
  {
    if id !in m.visited && id !in m.temp && id in jobs {
      SortedUnique(SortStrings(jobs[id]), SortStrings(other[id]));
      assert jobs.Keys - (m.temp + {id}) == jobs.Keys - m.temp - {id};
      VisitAllIgnoresListing(jobs, other, SortStrings(jobs[id]), m.(temp := m.temp + {id}));
    }
  }

  lemma {:induction false} VisitAllIgnoresListing(jobs: Jobs, other: Jobs, ids: seq<JobId>, m: Marks)
    requires SameNeeds(jobs, other)
    ensures VisitAll(jobs, ids, m) == VisitAll(other, ids, m)
    decreases |jobs.Keys - m.temp|, 1 + |ids|
  {
    if ids != [] {
      VisitIgnoresListing(jobs, other, ids[0], m);
      if Visit(jobs, ids[0], m).Ok? {
        VisitAllIgnoresListing(jobs, other, ids[1..], Visit(jobs, ids[0], m).marks);
      }
    }
  }

  /** The order, and the error if there is one, do not depend on how the needs are listed. */
  lemma OrderIgnoresListing(jobs: Jobs, other: Jobs, roots: seq<JobId>)
    requires SameNeeds(jobs, other)
    ensures TopoSort(jobs, roots) == TopoSort(other, roots)
  {
    VisitAllIgnoresListing(jobs, other, roots, START);
  }

  // ---- the sort in place -----------------------------------------------------------------------

  /** The variables that the recursive closure captures and updates. */
  class Sorter {
    const jobs: Jobs
    var visited: set<JobId>
    var temp: set<JobId>
    var out: seq<JobId>

    ghost function View(): Marks
      reads this
    {
      Marks(visited, temp, out)
    }

    constructor (jobs: Jobs)
      ensures this.jobs == jobs && View() == START
    {
      this.jobs := jobs;
      visited, temp, out := {}, {}, [];
    }

    method VisitJob(id: JobId) returns (err: Option<Error>)
      modifies this
      ensures match Visit(jobs, id, old(View()))
              case Ok(n) => err == None && View() == n
              case Err(e) => err == Some(e)
      decreases |jobs.Keys - temp|, 0
    {
      if id in visited {
        return None;
      }
      if id in temp {
        return Some(Cycle(id));
      }
      if id !in jobs {
        return Some(NotFound(id));
      }
      assert jobs.Keys - (temp + {id}) == jobs.Keys - temp - {id};
      temp := temp + {id};
      var needs := SortStrings(jobs[id]);
      err := VisitJobs(needs);
      if err.Some? {
        return;
      }
      temp := temp - {id};
      visited := visited + {id};
      out := out + [id];
    }

    method VisitJobs(ids: seq<JobId>) returns (err: Option<Error>)
      modifies this
      ensures match VisitAll(jobs, ids, old(View()))
              case Ok(n) => err == None && View() == n
              case Err(e) => err == Some(e)
      decreases |jobs.Keys - temp|, 1
    {
      var i := 0;
      while i < |ids|
        invariant 0 <= i <= |ids| && temp == old(temp)
        invariant VisitAll(jobs, ids, old(View())) == VisitAll(jobs, ids[i..], View())
      {
        assert ids[i..][0] == ids[i] && ids[i..][1..] == ids[i + 1..];
        err := VisitJob(ids[i]);
        if err.Some? {
          return;
        }
        i := i + 1;
      }
      assert ids[i..] == [];
      err := None;
    }
  }

  ghost predicate ListsKeys(ids: seq<JobId>, jobs: Jobs) { multiset(ids) == multiset(jobs.Keys) }

  /** The keys of a map, in whatever order the map yields them. */
  method GatherKeys(jobs: Jobs) returns (ids: seq<JobId>)
    ensures ListsKeys(ids, jobs)
  {
    ids := [];
    var left := jobs.Keys;
    while left != {}
      invariant left <= jobs.Keys
      invariant multiset(ids) == multiset(jobs.Keys) - multiset(left)
      decreases left
    {
      var id :| id in left;
      ids := ids + [id];
      left := left - {id};
    }
  }

  datatype Order = Order(ids: seq<JobId>) | Refused(error: Error)

  function ToOrder(r: Result): Order {
    match r
    case Ok(m) => Order(m.out)
    case Err(e) => Refused(e)
  }

  /**
   The order for one selected job, or for all jobs when none is selected. In the second case the
   result is that of the sorted key list, whatever order the map yielded its keys in.
   */
  method ResolveJobOrder(jobs: Jobs, selected: string) returns (order: Order)
    ensures TrimSpace(selected) != "" && selected !in jobs ==> order == Refused(NotFound(selected))
    ensures TrimSpace(selected) != "" && selected in jobs ==> order == ToOrder(TopoSort(jobs, [selected]))
    ensures TrimSpace(selected) == "" ==>
              forall ids :: ListsKeys(ids, jobs) && Sorted(ids) ==> order == ToOrder(TopoSort(jobs, ids))
  {
    var roots := [selected];
    if TrimSpace(selected) != "" {
      if selected !in jobs {
        return Refused(NotFound(selected));
      }
    } else {
      var ids := GatherKeys(jobs);
      roots := SortStrings(ids);
      forall other | ListsKeys(other, jobs) && Sorted(other) ensures other == roots {
        SortedUnique(other, roots);
      }
    }
    var sorter := new Sorter(jobs);
    var err := sorter.VisitJobs(roots);
    order := if err.Some? then Refused(err.value) else Order(sorter.out);
  }
}
