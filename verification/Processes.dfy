/** Which running processes keep the controller busy (`list_busy_bluetooth_processes` in
    `bosch_ble/bluez.py`), starting from the parsed process table. */
module Processes {
  import opened Wrappers

  const BUSY_PROCESS_PATTERNS: seq<string> := [
    "bosch-ble-handshake", "bosch-ble-dashboard", "bosch-ble-dump-gatt", "bosch-ble-log-chars", "bosch-ble-probe",
    "bluetoothctl scan", "bluetoothctl connect", "bluetoothctl pair", "bluetoothctl trust"]

  datatype Row = Row(pid: int, parent: Option<int>, args: string, display: string)

  predicate DistinctPids(rows: seq<Row>) {
    forall i, j | 0 <= i < j < |rows| :: rows[i].pid != rows[j].pid
  }

  /** A dictionary keyed by pid, in insertion order. */
  type Table = rows: seq<Row> | DistinctPids(rows)

  function Find(rows: seq<Row>, pid: int): (r: Option<Row>)
    ensures r.Some? ==> r.value in rows && r.value.pid == pid
  {
    if rows == [] then None else if rows[0].pid == pid then Some(rows[0]) else Find(rows[1..], pid)
  }

  /** The parent of a process; `fallback` is what the kernel says for a current process that is
      missing from the table. */
  function Parent(table: Table, current: int, fallback: int, pid: int): Option<int> {
    match Find(table, pid)
    case Some(row) => row.parent
    case None => if pid == current then Some(fallback) else None
  }

  /** A process of the table has the parent listed there, an unlisted one has none, except that the
      current process then has the parent the kernel reports. */
  lemma ParentExactly(table: Table, current: int, fallback: int, pid: int)
    ensures forall row | row in table && row.pid == pid :: Parent(table, current, fallback, pid) == row.parent
    ensures (forall row | row in table :: row.pid != pid) ==>
              Parent(table, current, fallback, pid) == if pid == current then Some(fallback) else None
  {
    FindExactly(table, pid);
  }

  lemma {:induction false} FindExactly(rows: seq<Row>, pid: int)
    requires DistinctPids(rows)
    ensures forall row | row in rows && row.pid == pid :: Find(rows, pid) == Some(row)
    ensures (forall row | row in rows :: row.pid != pid) ==> Find(rows, pid) == None
  {
    if rows == [] {
    } else {
      FindExactly(rows[1..], pid);
      forall row | row in rows && row.pid == pid
        ensures Find(rows, pid) == Some(row)
      {
        var i :| 0 <= i < |rows| && rows[i] == row;
        assert i > 0 ==> rows[1..][i - 1] == row;
      }
    }
  }

  // ---------- the ancestors ----------

  /** Contains the current process and the parent, if above 1, of everything it contains. */
  ghost predicate Closed(table: Table, current: int, fallback: int, s: set<int>) {
    && current in s
    && forall p | p in s :: var parent := Parent(table, current, fallback, p);
                            parent.Some? && parent.value > 1 ==> parent.value in s
  }

  /** The current process, then the parent of each process before, all but the first above 1. */
  ghost predicate IsLine(table: Table, current: int, fallback: int, line: seq<int>) {
    && line != [] && line[0] == current
    && forall i, j | 0 <= i < j < |line| && j == i + 1 ::
         line[j] >= 2 && Parent(table, current, fallback, line[i]) == Some(line[j])
  }

  ghost predicate IsAncestor(table: Table, current: int, fallback: int, pid: int) {
    exists line :: IsLine(table, current, fallback, line) && line[|line| - 1] == pid
  }

  lemma {:induction false} LineIsClosed(table: Table, current: int, fallback: int, line: seq<int>, s: set<int>)
    requires IsLine(table, current, fallback, line) && Closed(table, current, fallback, s)
    ensures line[|line| - 1] in s
  {
    if |line| == 1 {
    } else {
      LineIsClosed(table, current, fallback, line[..|line| - 1], s);
    }
  }

  lemma AncestorsAreClosed(table: Table, current: int, fallback: int, s: set<int>, pid: int)
    requires Closed(table, current, fallback, s) && IsAncestor(table, current, fallback, pid)
    ensures pid in s
  {
    var line :| IsLine(table, current, fallback, line) && line[|line| - 1] == pid;
    LineIsClosed(table, current, fallback, line, s);
  }

  lemma LineGrows(table: Table, current: int, fallback: int, line: seq<int>, pid: int)
    requires IsLine(table, current, fallback, line) && pid >= 2
    requires Parent(table, current, fallback, line[|line| - 1]) == Some(pid)
    ensures IsLine(table, current, fallback, line + [pid])
    ensures Members(line + [pid]) == Members(line) + {pid}
  {
  }

  function Members(line: seq<int>): set<int> {
    set pid | pid in line
  }

  lemma LineMembersAreAncestors(table: Table, current: int, fallback: int, line: seq<int>, pid: int)
    requires IsLine(table, current, fallback, line) && pid in line
    ensures IsAncestor(table, current, fallback, pid)
  {
    var i :| 0 <= i < |line| && line[i] == pid;
    var front := line[..i + 1];
    assert IsLine(table, current, fallback, front) && front[|front| - 1] == pid;
  }

  /** A line whose last process has no parent above 1 outside it is the least closed set and all
      the ancestors. */
  lemma LineIsAll(table: Table, current: int, fallback: int, line: seq<int>)
    requires IsLine(table, current, fallback, line)
    requires var parent := Parent(table, current, fallback, line[|line| - 1]);
             parent.Some? && parent.value > 1 ==> parent.value in line
    ensures Closed(table, current, fallback, Members(line))
    ensures forall s | Closed(table, current, fallback, s) :: Members(line) <= s
    ensures forall pid :: pid in Members(line) <==> IsAncestor(table, current, fallback, pid)
  {
    forall pid | pid in line
      ensures IsAncestor(table, current, fallback, pid)
      ensures var parent := Parent(table, current, fallback, pid);
              parent.Some? && parent.value > 1 ==> parent.value in line
    {
      LineMembersAreAncestors(table, current, fallback, line, pid);
      var i :| 0 <= i < |line| && line[i] == pid;
      assert i + 1 < |line| ==> Parent(table, current, fallback, line[i]) == Some(line[i + 1]);
    }
    forall pid | IsAncestor(table, current, fallback, pid)
      ensures pid in line
    {
      AncestorsAreClosed(table, current, fallback, Members(line), pid);
    }
    forall s, pid | Closed(table, current, fallback, s) && pid in line
      ensures pid in s
    {
      AncestorsAreClosed(table, current, fallback, s, pid);
    }
  }

  /** How many rows of the table are not ignored yet. */
  function Unseen(rows: seq<Row>, ignored: set<int>): nat {
    if rows == [] then 0 else (if rows[0].pid in ignored then 0 else 1) + Unseen(rows[1..], ignored)
  }

  lemma {:induction false} UnseenShrinks(rows: seq<Row>, ignored: set<int>, pid: int)
    requires pid !in ignored
    ensures Unseen(rows, ignored + {pid}) <= Unseen(rows, ignored)
    ensures Find(rows, pid).Some? ==> Unseen(rows, ignored + {pid}) < Unseen(rows, ignored)
  {
    if rows == [] {
    } else {
      UnseenShrinks(rows[1..], ignored, pid);
    }
  }

  /** What is ignored is the current process and its ancestors above 1: the least closed set. */
  method IgnoredPids(table: Table, current: int, fallback: int) returns (ignored: set<int>)
    ensures Closed(table, current, fallback, ignored)
    ensures forall s | Closed(table, current, fallback, s) :: ignored <= s
    ensures forall pid :: pid in ignored <==> IsAncestor(table, current, fallback, pid)
  {
    ignored := {current};
    var parent := Parent(table, current, fallback, current);
    ghost var line := [current];
    while parent.Some? && parent.value > 1 && parent.value !in ignored
      invariant IsLine(table, current, fallback, line) && ignored == Members(line)
      invariant parent == Parent(table, current, fallback, line[|line| - 1])
      decreases Unseen(table, ignored), if parent.Some? then 1 else 0
    {
      UnseenShrinks(table, ignored, parent.value);
      LineGrows(table, current, fallback, line, parent.value);
      ignored, line := ignored + {parent.value}, line + [parent.value];
      parent := Parent(table, current, fallback, parent.value);
    }
    LineIsAll(table, current, fallback, line);
  }

  // ---------- the busy list ----------

  predicate StartsWith(s: string, prefix: string) {
    prefix <= s
  }

  predicate Contains(s: string, part: string) {
    exists i | 0 <= i <= |s| :: part <= s[i..]
  }

  predicate IsBusy(row: Row, ignored: set<int>) {
    && row.pid !in ignored
    && !StartsWith(row.args, "ssh ")
    && exists i | 0 <= i < |BUSY_PROCESS_PATTERNS| :: Contains(row.args, BUSY_PROCESS_PATTERNS[i])
  }

  /** A string contains another exactly when it is something, the other, and something. */
  lemma ContainsExactly(s: string, part: string)
    ensures Contains(s, part) <==> exists before, after :: s == before + part + after
  {
    if i :| 0 <= i <= |s| && part <= s[i..] {
      assert s == s[..i] + part + s[i + |part|..];
    }
    if before, after :| s == before + part + after {
      assert s[|before|..] == part + after;
    }
  }

  /** A process is busy exactly when it is not ignored, is no ssh session and its arguments mention
      one of the project's own tools or a bluetoothctl command that uses the controller. */
  lemma BusyExactly(row: Row, ignored: set<int>)
    ensures IsBusy(row, ignored) <==>
            && row.pid !in ignored
            && (forall rest :: row.args != "ssh " + rest)
            && (|| Contains(row.args, "bosch-ble-handshake") || Contains(row.args, "bosch-ble-dashboard")
                || Contains(row.args, "bosch-ble-dump-gatt") || Contains(row.args, "bosch-ble-log-chars")
                || Contains(row.args, "bosch-ble-probe") || Contains(row.args, "bluetoothctl scan")
                || Contains(row.args, "bluetoothctl connect") || Contains(row.args, "bluetoothctl pair")
                || Contains(row.args, "bluetoothctl trust"))
  {
    if StartsWith(row.args, "ssh ") {
      assert row.args == "ssh " + row.args[4..];
    }
    var p := BUSY_PROCESS_PATTERNS;
    assert p[0] == "bosch-ble-handshake" && p[1] == "bosch-ble-dashboard" && p[2] == "bosch-ble-dump-gatt";
    assert p[3] == "bosch-ble-log-chars" && p[4] == "bosch-ble-probe" && p[5] == "bluetoothctl scan";
    assert p[6] == "bluetoothctl connect" && p[7] == "bluetoothctl pair" && p[8] == "bluetoothctl trust";
  }

  /** `picked` are the positions of exactly the busy rows, in table order, and `busy` shows them. */
  ghost predicate ShowsBusyRows(table: seq<Row>, ignored: set<int>, picked: seq<int>, busy: seq<string>) {
    && |picked| == |busy|
    && (forall k | 0 <= k < |picked| :: 0 <= picked[k] < |table| && busy[k] == table[picked[k]].display)
    && (forall j, k | 0 <= j < k < |picked| :: picked[j] < picked[k])
    && (forall i | 0 <= i < |table| :: IsBusy(table[i], ignored) <==> i in picked)
  }

  /** `ps` is what the process table listing parsed to, if the command succeeded. */
  method ListBusyProcesses(ps: Option<Table>, current: int, fallback: int)
    returns (busy: seq<string>, ghost ignored: set<int>, ghost picked: seq<int>)
    ensures ps.None? ==> busy == []
    ensures ps.Some? ==> Closed(ps.value, current, fallback, ignored)
    ensures ps.Some? ==> forall s | Closed(ps.value, current, fallback, s) :: ignored <= s
    ensures ps.Some? ==> ShowsBusyRows(ps.value, ignored, picked, busy)
  {
    busy, picked, ignored := [], [], {};
    if ps.None? {
      return;
    }
    var table := ps.value;
    var pids := IgnoredPids(table, current, fallback);
    ignored := pids;
    for i := 0 to |table|
      invariant ShowsBusyRows(table[..i], ignored, picked, busy)
    {
      ShowsNextRow(table, i, ignored, picked, busy);
      var row := table[i];
      if row.pid !in pids && !StartsWith(row.args, "ssh ")
         && exists k | 0 <= k < |BUSY_PROCESS_PATTERNS| :: Contains(row.args, BUSY_PROCESS_PATTERNS[k])
      {
        busy := busy + [row.display];
        picked := picked + [i];
      }
    }
    assert table[..|table|] == table;
  }

  lemma ShowsNextRow(table: seq<Row>, i: nat, ignored: set<int>, picked: seq<int>, busy: seq<string>)
    requires i < |table| && ShowsBusyRows(table[..i], ignored, picked, busy)
    ensures IsBusy(table[i], ignored) ==>
              ShowsBusyRows(table[..i + 1], ignored, picked + [i], busy + [table[i].display])
    ensures !IsBusy(table[i], ignored) ==> ShowsBusyRows(table[..i + 1], ignored, picked, busy)
  {
    assert forall k | 0 <= k < i :: table[..i][k] == table[..i + 1][k];
    assert forall k :: k in picked + [i] <==> k in picked || k == i;
  }

  /** What is shown does not depend on how the positions were found. */
  lemma {:induction false} BusyRowsUnique(
    table: seq<Row>, ignored: set<int>, picked1: seq<int>, busy1: seq<string>, picked2: seq<int>, busy2: seq<string>)
    requires ShowsBusyRows(table, ignored, picked1, busy1) && ShowsBusyRows(table, ignored, picked2, busy2)
    ensures picked1 == picked2 && busy1 == busy2
  {
    SortedUnique(picked1, picked2);
  }

  lemma {:induction false} SortedUnique(a: seq<int>, b: seq<int>)
    requires forall j, k | 0 <= j < k < |a| :: a[j] < a[k]
    requires forall j, k | 0 <= j < k < |b| :: b[j] < b[k]
    requires forall x :: x in a <==> x in b
    ensures a == b
  {
    if a == [] {
      assert forall i | 0 <= i < |b| :: b[i] in a;
    } else {
      var x := a[|a| - 1];
      assert x in a;
      assert x in b;
      var y := b[|b| - 1];
      assert y in b;
      assert y in a;
      assert x == y;
      var a', b' := a[..|a| - 1], b[..|b| - 1];
      forall z
        ensures z in a' <==> z in b'
      {
        assert z in a <==> z in a' || z == x;
        assert z in b <==> z in b' || z == y;
      }
      SortedUnique(a', b');
      assert a == a' + [x] && b == b' + [y];
    }
  }
}
