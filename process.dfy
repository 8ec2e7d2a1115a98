/**
 * The process listing: container names read from the Docker
 * daemon, the per-process row with its fallbacks, the query filter, the
 * column sort and the cap on the number of rows returned.
 */
module Process {
  import opened Wrappers
  import opened Text

  /** One row of the process table. PIDs are 32-bit in the source; here they are unbounded integers. */
  datatype ProcessInfo = ProcessInfo(
    pid: int, user: string, cpu: real, ram: real,
    command: string, containerId: string, containerName: string)

  /**
   * What the host reports for one process. `cmdline` and `name` are None when
   * the probe failed; `cgroupMatch` is the 64-hex container id the cgroup
   * scan found, if any.
   */
  datatype ProcSample = ProcSample(
    pid: int, cmdline: Option<string>, name: Option<string>,
    cpu: real, ram: real, username: string, cgroupMatch: Option<string>)

  /** A container as the daemon's JSON list describes it. */
  datatype Container = Container(id: string, names: seq<string>)

  /** The daemon's answer: no connection, or a status with the decoded body (None when it did not decode). */
  datatype DockerReply = Unreachable | Reply(status: int, decoded: Option<seq<Container>>)

  const ShortIdLength: nat := 12
  const MaxRows: nat := 150

  /** truncateID: at most the first 12 characters of an id. */
  function TruncateID(id: string): (r: string)
    ensures |r| == Min(|id|, ShortIdLength) && r == id[..|r|]
    ensures |id| <= ShortIdLength ==> r == id
  {
    if |id| > ShortIdLength then id[..ShortIdLength] else id
  }

  /** Truncating a short id again changes nothing. */
  lemma TruncateIDIdempotent(id: string)
    ensures TruncateID(TruncateID(id)) == TruncateID(id)
  {
  }

  // ---------------------------------------------------------------------------
  // Container names
  // ---------------------------------------------------------------------------

  /** The name shown for a container: its first name without one leading slash. */
  function DisplayName(c: Container): string
    requires |c.names| > 0
  {
    TrimPrefix(c.names[0], "/")
  }

  /** A named container answers for both its full id and its 12-character id. */
  predicate Claims(c: Container, key: string) {
    |c.names| > 0 && (key == c.id || key == TruncateID(c.id))
  }

  /** One loop step: a named container writes its short id, then its full id; a nameless one is skipped. */
  function AddContainer(m: map<string, string>, c: Container): map<string, string> {
    if |c.names| > 0 then m[TruncateID(c.id) := DisplayName(c)][c.id := DisplayName(c)] else m
  }

  /** The map after visiting the containers in order. */
  function ContainersOf(cs: seq<Container>): map<string, string>
    decreases |cs|
  {
    if cs == [] then map[] else AddContainer(ContainersOf(cs[..|cs| - 1]), cs[|cs| - 1])
  }

  /**
   * GetContainersMap: no connection, a status other than 200 or a body that
   * does not decode gives the empty map; otherwise every named container is
   * entered under both ids.
   */
  method GetContainersMap(reply: DockerReply) returns (cmap: map<string, string>)
    ensures reply.Unreachable? || reply.status != 200 || reply.decoded.None? ==> cmap == map[]
    ensures reply.Reply? && reply.status == 200 && reply.decoded.Some? ==> cmap == ContainersOf(reply.decoded.value)
  {
    cmap := map[];
    if reply.Unreachable? || reply.status != 200 || reply.decoded.None? {
      return;
    }
    var containers := reply.decoded.value;
    var i := 0;
    while i < |containers|
      invariant 0 <= i <= |containers|
      invariant cmap == ContainersOf(containers[..i])
    {
      var c := containers[i];
      if |c.names| > 0 {
        var name := TrimPrefix(c.names[0], "/");
        var shortId := c.id;
        if |shortId| > ShortIdLength {
          shortId := shortId[..ShortIdLength];
        }
        cmap := cmap[shortId := name];
        cmap := cmap[c.id := name];
      }
      assert containers[..i + 1][..i] == containers[..i];
      i := i + 1;
    }
    assert containers[..i] == containers;
  }

  /** The keys of the map are exactly the ids some named container claims. */
  lemma {:induction false} ContainersOfKeys(cs: seq<Container>, key: string)
    ensures key in ContainersOf(cs) <==> exists j :: 0 <= j < |cs| && Claims(cs[j], key)
    decreases |cs|
  {
    if cs != [] {
      var init := cs[..|cs| - 1];
      ContainersOfKeys(init, key);
      if exists j :: 0 <= j < |init| && Claims(init[j], key) {
        var j :| 0 <= j < |init| && Claims(init[j], key);
        assert Claims(cs[j], key);
      }
      if exists j :: 0 <= j < |cs| && Claims(cs[j], key) {
        var j :| 0 <= j < |cs| && Claims(cs[j], key);
        if j < |init| {
          assert Claims(init[j], key);
        }
      }
    }
  }

  /** When several containers claim one id, the last of them names it. */
  lemma {:induction false} ContainersOfLastWins(cs: seq<Container>, key: string, j: nat)
    requires j < |cs| && Claims(cs[j], key)
    requires forall k :: j < k < |cs| ==> !Claims(cs[k], key)
    ensures key in ContainersOf(cs) && ContainersOf(cs)[key] == DisplayName(cs[j])
    decreases |cs|
  {
    if j < |cs| - 1 {
      var init := cs[..|cs| - 1];
      assert init[j] == cs[j];
      forall k | j < k < |init| ensures !Claims(init[k], key) {
        assert init[k] == cs[k];
      }
      ContainersOfLastWins(init, key, j);
      assert !Claims(cs[|cs| - 1], key);
    }
  }

  // ---------------------------------------------------------------------------
  // Rows and the query filter
  // ---------------------------------------------------------------------------

  /** The regular expressions of the cgroup scan only ever match 64 hex digits. */
  predicate CgroupWellFormed(p: ProcSample) {
    p.cgroupMatch.Some? ==> |p.cgroupMatch.value| == 64
  }

  /** The command line, or "[name]" when it is missing or empty; "" when the name is missing too. */
  function CommandOf(p: ProcSample): string {
    if p.cmdline.Some? && p.cmdline.value != "" then p.cmdline.value
    else if p.name.Some? && p.name.value != "" then "[" + p.name.value + "]"
    else ""
  }

  /** The query matches part of the lower-cased command, or the whole decimal PID. */
  predicate Matches(query: string, command: string, pid: int) {
    query == "" || Contains(ToLower(command), query) || Decimal(pid) == query
  }

  /** The container id of a process: the first 12 characters of the cgroup match, or "". */
  function ContainerIdOf(p: ProcSample): string {
    if p.cgroupMatch.Some? then TruncateID(p.cgroupMatch.value) else ""
  }

  /** The container name: looked up by the id, then by its first 12 characters. */
  function ContainerNameOf(cid: string, cmap: map<string, string>): (name: string)
    requires cid == "" || |cid| >= ShortIdLength
    ensures cid == "" ==> name == ""
    ensures name == "" || name in cmap.Values
    ensures cid != "" && cid in cmap ==> name == cmap[cid]
    ensures cid != "" && cid !in cmap ==>
              name == (if cid[..ShortIdLength] in cmap then cmap[cid[..ShortIdLength]] else "")
  {
    if cid == "" then ""
    else if cid in cmap then cmap[cid]
    else if cid[..ShortIdLength] in cmap then cmap[cid[..ShortIdLength]]
    else ""
  }

  /** The row for one process under the lower-cased query, or None when it is dropped. */
  function RowOf(p: ProcSample, query: string, cmap: map<string, string>): (r: Option<ProcessInfo>)
    requires CgroupWellFormed(p)
    ensures r.Some? ==> r.value.command != "" && r.value.user != "" && r.value.pid == p.pid
    ensures r.Some? <==> CommandOf(p) != "" && Matches(query, CommandOf(p), p.pid)
    ensures r.Some? ==> r.value.command == CommandOf(p) && r.value.user == (if p.username == "" then "root" else p.username)
    ensures r.Some? ==> r.value.cpu == p.cpu && r.value.ram == p.ram && r.value.containerId == ContainerIdOf(p)
    ensures r.Some? ==> r.value.containerName == ContainerNameOf(ContainerIdOf(p), cmap)
  {
    var cmd := CommandOf(p);
    if cmd == "" then None
    else if query != "" && !Contains(ToLower(cmd), query) && Decimal(p.pid) != query then None
    else
      var cid := ContainerIdOf(p);
      Some(ProcessInfo(p.pid, if p.username == "" then "root" else p.username, p.cpu, p.ram,
                       cmd, cid, ContainerNameOf(cid, cmap)))
  }

  predicate AllWellFormed(procs: seq<ProcSample>) {
    forall k :: 0 <= k < |procs| ==> CgroupWellFormed(procs[k])
  }

  /** The kept rows, in the order the host listed the processes. */
  function Rows(procs: seq<ProcSample>, query: string, cmap: map<string, string>): seq<ProcessInfo>
    requires AllWellFormed(procs)
    decreases |procs|
  {
    if procs == [] then []
    else
      var last := RowOf(procs[|procs| - 1], query, cmap);
      Rows(procs[..|procs| - 1], query, cmap) + (if last.Some? then [last.value] else [])
  }

  /** Every kept row comes from a process that the filter admits, and has a command and a user. */
  lemma {:induction false} RowsAdmitted(procs: seq<ProcSample>, query: string, cmap: map<string, string>)
    requires AllWellFormed(procs)
    ensures |Rows(procs, query, cmap)| <= |procs|
    ensures forall r :: r in Rows(procs, query, cmap) ==>
              r.command != "" && r.user != ""
              && exists k :: 0 <= k < |procs| && RowOf(procs[k], query, cmap) == Some(r)
    decreases |procs|
  {
    if procs != [] {
      var init := procs[..|procs| - 1];
      RowsAdmitted(init, query, cmap);
      forall r | r in Rows(procs, query, cmap)
        ensures exists k :: 0 <= k < |procs| && RowOf(procs[k], query, cmap) == Some(r)
      {
        if r in Rows(init, query, cmap) {
          var k :| 0 <= k < |init| && RowOf(init[k], query, cmap) == Some(r);
          assert procs[k] == init[k];
        } else {
          assert RowOf(procs[|procs| - 1], query, cmap) == Some(r);
        }
      }
    }
  }

  /** A process whose decimal PID is typed as the query is listed (provided it has a command). */
  lemma PidQueryFinds(p: ProcSample, cmap: map<string, string>)
    requires CgroupWellFormed(p) && CommandOf(p) != ""
    ensures RowOf(p, ToLower(Decimal(p.pid)), cmap).Some?
  {
    var s := Decimal(p.pid);
    forall k | 0 <= k < |s| ensures LowerChar(s[k]) == s[k] {
      if k > 0 || s[0] != '-' {
        NatDigits(p.pid, k);
      }
    }
    assert ToLower(s) == s;
  }

  lemma NatDigits(n: int, k: nat)
    requires k < |Decimal(n)| && (k > 0 || Decimal(n)[0] != '-')
    ensures IsDigit(Decimal(n)[k])
  {
    if n < 0 {
      assert Decimal(n)[k] == NatDecimal(-n)[k - 1];
    }
  }

  /**
   * The search ignores letter case on both sides: a query typed in any case
   * lists a process whose command holds the same word in any other case.
   */
  lemma QueryCaseInsensitive(p: ProcSample, query: string, w: string, cmap: map<string, string>)
    requires CgroupWellFormed(p) && CommandOf(p) != ""
    requires Contains(CommandOf(p), w) && ToLower(w) == ToLower(query)
    ensures RowOf(p, ToLower(query), cmap).Some?
  {
    ContainsLower(CommandOf(p), w);
  }

  lemma RowsSnoc(procs: seq<ProcSample>, i: nat, query: string, cmap: map<string, string>)
    requires AllWellFormed(procs) && i < |procs|
    ensures AllWellFormed(procs[..i]) && AllWellFormed(procs[..i + 1])
    ensures Rows(procs[..i + 1], query, cmap) ==
              Rows(procs[..i], query, cmap) + (if RowOf(procs[i], query, cmap).Some? then [RowOf(procs[i], query, cmap).value] else [])
  {
    assert procs[..i + 1][..i] == procs[..i] && procs[..i + 1][i] == procs[i];
  }

  /** The filtering loop of GetProcesses. */
  method CollectRows(procs: seq<ProcSample>, query: string, cmap: map<string, string>) returns (results: seq<ProcessInfo>)
    requires AllWellFormed(procs)
    ensures results == Rows(procs, query, cmap)
  {
    results := [];
    var i := 0;
    while i < |procs|
      invariant 0 <= i <= |procs|
      invariant results == Rows(procs[..i], query, cmap)
    {
      var p := procs[i];
      RowsSnoc(procs, i, query, cmap);
      var cmd := CommandOf(p);
      if cmd != "" && Matches(query, cmd, p.pid) {
        var user := p.username;
        if user == "" {
          user := "root";
        }
        var cid := ContainerIdOf(p);
        var name := ContainerNameOf(cid, cmap);
        results := results + [ProcessInfo(p.pid, user, p.cpu, p.ram, cmd, cid, name)];
      }
      i := i + 1;
    }
    assert procs[..i] == procs;
  }

  // ---------------------------------------------------------------------------
  // The sort
  // ---------------------------------------------------------------------------

  predicate HasContainer(p: ProcessInfo) {
    p.containerName != "" || p.containerId != ""
  }

  /**
   * The sort comparator: by PID, user, container (container rows first when
   * ascending, last when descending, then by name), command, RAM, or, for
   * "cpu" and any unknown column, CPU with RAM breaking ties. Only "asc" is
   * ascending.
   */
  predicate Less(sortBy: string, sortDir: string, a: ProcessInfo, b: ProcessInfo) {
    var asc := sortDir == "asc";
    if sortBy == "pid" then (if asc then a.pid < b.pid else a.pid > b.pid)
    else if sortBy == "user" then (if asc then StrLess(a.user, b.user) else StrLess(b.user, a.user))
    else if sortBy == "container" then
      if HasContainer(a) != HasContainer(b) then (if asc then HasContainer(a) else HasContainer(b))
      else if asc then StrLess(a.containerName, b.containerName)
      else StrLess(b.containerName, a.containerName)
    else if sortBy == "command" then (if asc then StrLess(a.command, b.command) else StrLess(b.command, a.command))
    else if sortBy == "ram" then (if asc then a.ram < b.ram else a.ram > b.ram)
    else if a.cpu == b.cpu then (if asc then a.ram < b.ram else a.ram > b.ram)
    else if asc then a.cpu < b.cpu
    else a.cpu > b.cpu
  }

  /**
   * A process without a usable command line is listed under "[name]", and is
   * dropped when its name is missing or empty too.
   */
  lemma CommandFallback(p: ProcSample, query: string, cmap: map<string, string>)
    requires CgroupWellFormed(p) && (p.cmdline.None? || p.cmdline.value == "")
    ensures (p.name.None? || p.name.value == "") ==> RowOf(p, query, cmap).None?
    ensures p.name.Some? && p.name.value != "" && query == "" ==>
              RowOf(p, query, cmap).Some? && RowOf(p, query, cmap).value.command == "[" + p.name.value + "]"
  {
  }

  lemma LessIrreflexive(sortBy: string, sortDir: string, a: ProcessInfo)
    ensures !Less(sortBy, sortDir, a, a)
  {
    StrLessIrreflexive(a.user);
    StrLessIrreflexive(a.containerName);
    StrLessIrreflexive(a.command);
  }

  lemma LessTransitive(sortBy: string, sortDir: string, a: ProcessInfo, b: ProcessInfo, c: ProcessInfo)
    requires Less(sortBy, sortDir, a, b) && Less(sortBy, sortDir, b, c)
    ensures Less(sortBy, sortDir, a, c)
  {
    var asc := sortDir == "asc";
    if sortBy == "user" {
      if asc { StrLessTransitive(a.user, b.user, c.user); } else { StrLessTransitive(c.user, b.user, a.user); }
    } else if sortBy == "container" {
      if HasContainer(a) == HasContainer(b) && HasContainer(b) == HasContainer(c) {
        if asc {
          StrLessTransitive(a.containerName, b.containerName, c.containerName);
        } else {
          StrLessTransitive(c.containerName, b.containerName, a.containerName);
        }
      }
    } else if sortBy == "command" {
      if asc { StrLessTransitive(a.command, b.command, c.command); } else { StrLessTransitive(c.command, b.command, a.command); }
    }
  }

  /**
   * Incomparability is transitive: whatever sorts before `c` sorts before
   * any `b` or `b` sorts before `c`.
   */
  lemma LessWeak(sortBy: string, sortDir: string, a: ProcessInfo, b: ProcessInfo, c: ProcessInfo)
    requires Less(sortBy, sortDir, a, c)
    ensures Less(sortBy, sortDir, a, b) || Less(sortBy, sortDir, b, c)
  {
    var asc := sortDir == "asc";
    if sortBy == "user" {
      if asc { StrLessWeak(a.user, b.user, c.user); } else { StrLessWeak(c.user, b.user, a.user); }
    } else if sortBy == "container" {
      if HasContainer(a) == HasContainer(b) && HasContainer(b) == HasContainer(c) {
        if asc {
          StrLessWeak(a.containerName, b.containerName, c.containerName);
        } else {
          StrLessWeak(c.containerName, b.containerName, a.containerName);
        }
      }
    } else if sortBy == "command" {
      if asc { StrLessWeak(a.command, b.command, c.command); } else { StrLessWeak(c.command, b.command, a.command); }
    }
  }

  /** The comparator as a value, for the sort. */
  function Comparator(sortBy: string, sortDir: string): (ProcessInfo, ProcessInfo) -> bool {
    (a: ProcessInfo, b: ProcessInfo) => Less(sortBy, sortDir, a, b)
  }

  /** An irreflexive, transitive "sorts before" relation. */
  ghost predicate StrictOrder<T(!new)>(less: (T, T) -> bool) {
    && (forall a :: !less(a, a))
    && (forall a, b, c :: less(a, b) && less(b, c) ==> less(a, c))
  }

  /** A strict order whose incomparability is transitive, which sort.Slice expects of its less function. */
  ghost predicate StrictWeakOrder<T(!new)>(less: (T, T) -> bool) {
    && StrictOrder(less)
    && (forall a, b, c :: less(a, c) ==> less(a, b) || less(b, c))
  }

  /** Every column's comparator is a strict weak order, so sorting by it is meaningful. */
  lemma ComparatorIsStrictOrder(sortBy: string, sortDir: string)
    ensures StrictWeakOrder(Comparator(sortBy, sortDir))
  {
    var less := Comparator(sortBy, sortDir);
    forall a ensures !less(a, a) {
      LessIrreflexive(sortBy, sortDir, a);
    }
    forall a, b, c | less(a, b) && less(b, c) ensures less(a, c) {
      LessTransitive(sortBy, sortDir, a, b, c);
    }
    forall a, b, c | less(a, c) ensures less(a, b) || less(b, c) {
      LessWeak(sortBy, sortDir, a, b, c);
    }
  }

  /** No element sorts strictly before an earlier one. */
  predicate Sorted<T>(less: (T, T) -> bool, s: seq<T>) {
    forall i, j :: 0 <= i < j < |s| ==> !less(s[j], s[i])
  }

  /** Inserting before the first element that `x` sorts before keeps a sorted list sorted. */
  method Insert<T(==, !new)>(less: (T, T) -> bool, s: seq<T>, x: T) returns (r: seq<T>)
    requires StrictOrder(less)
    requires Sorted(less, s)
    ensures Sorted(less, r)
    ensures multiset(r) == multiset(s) + multiset{x}
  {
    var p := 0;
    while p < |s| && !less(x, s[p])
      invariant 0 <= p <= |s|
      invariant forall i :: 0 <= i < p ==> !less(x, s[i])
    {
      p := p + 1;
    }
    r := s[..p] + [x] + s[p..];
    assert s == s[..p] + s[p..];
    InsertedSorted(less, s, p, x);
  }

  /** `x` placed after everything it does not sort before and ahead of the rest keeps the list sorted. */
  lemma InsertedSorted<T(!new)>(less: (T, T) -> bool, s: seq<T>, p: nat, x: T)
    requires StrictOrder(less) && Sorted(less, s) && p <= |s|
    requires forall i :: 0 <= i < p ==> !less(x, s[i])
    requires p < |s| ==> less(x, s[p])
    ensures Sorted(less, s[..p] + [x] + s[p..])
  {
    var r := s[..p] + [x] + s[p..];
    assert |r| == |s| + 1 && r[p] == x;
    assert forall i :: 0 <= i < p ==> r[i] == s[i];
    assert forall i :: p < i < |r| ==> r[i] == s[i - 1];
    forall i, j | 0 <= i < j < |r| ensures !less(r[j], r[i]) {
      if j < p {
        assert !less(s[j], s[i]);
      } else if j == p {
        assert !less(x, s[i]);
      } else if i == p {
        assert j - 1 == p || !less(s[j - 1], s[p]);
        assert !less(s[j - 1], x);
      } else if i < p {
        assert !less(s[j - 1], s[i]);
      } else {
        assert !less(s[j - 1], s[i - 1]);
      }
    }
  }

  /** sort.Slice with a strict order: the result is sorted and a permutation of the input. */
  method SortRows<T(==, !new)>(less: (T, T) -> bool, rows: seq<T>) returns (sorted: seq<T>)
    requires StrictOrder(less)
    ensures Sorted(less, sorted)
    ensures multiset(sorted) == multiset(rows)
  {
    sorted := [];
    var i := 0;
    while i < |rows|
      invariant 0 <= i <= |rows|
      invariant Sorted(less, sorted)
      invariant multiset(sorted) == multiset(rows[..i])
    {
      assert rows[..i + 1] == rows[..i] + [rows[i]];
      sorted := Insert(less, sorted, rows[i]);
      i := i + 1;
    }
    assert rows[..i] == rows;
  }

  /** The first `n` of a sorted list are sorted, and none of the rest sorts before any of them. */
  lemma PrefixOfSorted<T>(less: (T, T) -> bool, s: seq<T>, n: nat)
    requires Sorted(less, s) && n <= |s|
    ensures Sorted(less, s[..n])
    ensures multiset(s[..n]) <= multiset(s)
    ensures forall x, y :: x in s[..n] && y in multiset(s) - multiset(s[..n]) ==> !less(y, x)
  {
    assert s == s[..n] + s[n..];
    assert multiset(s) - multiset(s[..n]) == multiset(s[n..]);
    forall x, y | x in s[..n] && y in multiset(s) - multiset(s[..n]) ensures !less(y, x) {
      var i :| 0 <= i < n && s[..n][i] == x;
      assert y in s[n..];
      var j :| 0 <= j < |s[n..]| && s[n..][j] == y;
      assert s[i] == x && s[n + j] == y;
    }
  }

  /** Ascending container order lists container rows first, descending lists them last. */
  lemma ContainerOrder(sortDir: string, s: seq<ProcessInfo>, i: nat, j: nat)
    requires Sorted(Comparator("container", sortDir), s) && i < j < |s|
    ensures sortDir == "asc" && HasContainer(s[j]) ==> HasContainer(s[i])
    ensures sortDir != "asc" && HasContainer(s[i]) ==> HasContainer(s[j])
  {
  }

  /** Under the CPU order (also any unknown column), CPU never increases when descending and never decreases when ascending. */
  lemma CpuOrder(sortBy: string, sortDir: string, s: seq<ProcessInfo>, i: nat, j: nat)
    requires sortBy !in {"pid", "user", "container", "command", "ram"}
    requires Sorted(Comparator(sortBy, sortDir), s) && i < j < |s|
    ensures sortDir == "asc" ==> s[i].cpu <= s[j].cpu
    ensures sortDir != "asc" ==> s[i].cpu >= s[j].cpu
    ensures s[i].cpu == s[j].cpu ==> (if sortDir == "asc" then s[i].ram <= s[j].ram else s[i].ram >= s[j].ram)
  {
    assert !Comparator(sortBy, sortDir)(s[j], s[i]);
  }

  // ---------------------------------------------------------------------------
  // GetProcesses
  // ---------------------------------------------------------------------------

  /**
   * GetProcesses: the query is lower-cased, the container map is read, a failed
   * process listing gives no rows, the kept rows are sorted and only the first
   * 150 are returned: those are sorted, drawn from the kept rows, and no
   * dropped row sorts before a returned one.
   */
  method GetProcesses(query: string, sortBy: string, sortDir: string, reply: DockerReply,
                      procs: Option<seq<ProcSample>>) returns (results: seq<ProcessInfo>)
    requires procs.Some? ==> AllWellFormed(procs.value)
    ensures procs.None? ==> results == []
    ensures procs.Some? ==>
      var cmap := if reply.Reply? && reply.status == 200 && reply.decoded.Some? then ContainersOf(reply.decoded.value) else map[];
      var rows := Rows(procs.value, ToLower(query), cmap);
      && |results| == Min(|rows|, MaxRows)
      && Sorted(Comparator(sortBy, sortDir), results)
      && multiset(results) <= multiset(rows)
      && (|rows| <= MaxRows ==> multiset(results) == multiset(rows))
      && forall x, y :: x in results && y in multiset(rows) - multiset(results) ==> !Less(sortBy, sortDir, y, x)
  {
    var q := ToLower(query);
    var cmap := GetContainersMap(reply);
    if procs.None? {
      return [];
    }
    var rows := CollectRows(procs.value, q, cmap);
    var less := Comparator(sortBy, sortDir);
    ComparatorIsStrictOrder(sortBy, sortDir);
    var sorted := SortRows(less, rows);
    assert |sorted| == |multiset(sorted)| == |multiset(rows)| == |rows|;
    results := sorted;
    if |results| > MaxRows {
      results := results[..MaxRows];
    }
    assert results == sorted[..|results|];
    PrefixOfSorted(less, sorted, |results|);
    forall x, y | x in results && y in multiset(rows) - multiset(results)
      ensures !Less(sortBy, sortDir, y, x)
    {
      assert !less(y, x);
    }
  }
}
