/** Keeping one integrity task for each file that several tasks would write. */
module TargetTasks {
  import opened Collections

  datatype Expected = Expected(hash: string, size: Option<nat>)

  /** `target` is the key of the physical path a task finally writes. */
  datatype Task = FinalFile(name: string, target: string, expected: Expected) | Auxiliary(name: string)

  predicate SameTarget(s: Task, t: Task) {
    s.FinalFile? && t.FinalFile? && s.target == t.target
  }

  predicate Agree(s: Task, t: Task) {
    SameTarget(s, t) ==> s.expected == t.expected
  }

  ghost predicate AllAgree(tasks: seq<Task>, n: nat)
    requires n <= |tasks|
  {
    forall j, k :: 0 <= j < k < n ==> Agree(tasks[j], tasks[k])
  }

  predicate Repeats(tasks: seq<Task>, k: nat)
    requires k < |tasks|
  {
    exists j :: 0 <= j < k && SameTarget(tasks[j], tasks[k])
  }

  /** Of the first `n` tasks, those that do not repeat an earlier target. */
  function Firsts(tasks: seq<Task>, n: nat): seq<Task>
    requires n <= |tasks|
  {
    if n == 0 then [] else Firsts(tasks, n - 1) + if Repeats(tasks, n - 1) then [] else [tasks[n - 1]]
  }

  ghost predicate Recorded(tasks: seq<Task>, n: nat, targets: map<string, Expected>)
    requires n <= |tasks|
  {
    && (forall j :: 0 <= j < n && tasks[j].FinalFile? ==>
          tasks[j].target in targets && targets[tasks[j].target] == tasks[j].expected)
    && (forall t :: t in targets ==> exists j :: 0 <= j < n && tasks[j].FinalFile? && tasks[j].target == t)
  }

  lemma RecordOne(tasks: seq<Task>, n: nat, targets: map<string, Expected>)
    requires n < |tasks| && Recorded(tasks, n, targets) && AllAgree(tasks, n)
    ensures tasks[n].Auxiliary? ==> !Repeats(tasks, n) && AllAgree(tasks, n + 1) && Recorded(tasks, n + 1, targets)
    ensures tasks[n].FinalFile? ==>
      Repeats(tasks, n) == (tasks[n].target in targets)
      && (AllAgree(tasks, n + 1) <==> (tasks[n].target in targets ==> targets[tasks[n].target] == tasks[n].expected))
      && (AllAgree(tasks, n + 1) ==> Recorded(tasks, n + 1, targets[tasks[n].target := tasks[n].expected]))
  {
    if tasks[n].FinalFile? && tasks[n].target in targets {
      var j :| 0 <= j < n && tasks[j].FinalFile? && tasks[j].target == tasks[n].target;
      assert SameTarget(tasks[j], tasks[n]);
      assert AllAgree(tasks, n + 1) ==> Agree(tasks[j], tasks[n]);
    }
  }

  /** Tasks for one file must expect the same content; the first is kept, the others are dropped, in order. */
  method DeduplicateTargets(tasks: seq<Task>) returns (r: Option<seq<Task>>)
    ensures r.Some? <==> AllAgree(tasks, |tasks|)
    ensures r.Some? ==> r.value == Firsts(tasks, |tasks|)
  {
    hide Recorded, Repeats;
    var targets: map<string, Expected> := map[];
    var unique: seq<Task> := [];
    NothingRecorded(tasks);
    for n := 0 to |tasks|
      invariant AllAgree(tasks, n) && Recorded(tasks, n, targets) && unique == Firsts(tasks, n)
    {
      RecordOne(tasks, n, targets);
      var task := tasks[n];
      if task.Auxiliary? {
        unique := unique + [task];
      } else if task.target in targets {
        if targets[task.target] != task.expected {
          return None;
        }
        assert targets[task.target := task.expected] == targets;
      } else {
        targets := targets[task.target := task.expected];
        unique := unique + [task];
      }
    }
    return Some(unique);
  }

  lemma NothingRecorded(tasks: seq<Task>)
    ensures Recorded(tasks, 0, map[])
  {
  }

  lemma {:induction false} FirstsAreTasks(tasks: seq<Task>, n: nat, t: Task)
    requires n <= |tasks| && t in Firsts(tasks, n)
    ensures exists j :: 0 <= j < n && tasks[j] == t
  {
    hide Repeats;
    if t in Firsts(tasks, n - 1) {
      FirstsAreTasks(tasks, n - 1, t);
    } else {
      assert tasks[n - 1] == t;
    }
  }

  lemma {:induction false} FirstsDiffer(tasks: seq<Task>, n: nat, j: nat, k: nat)
    requires n <= |tasks| && j < k < |Firsts(tasks, n)|
    ensures !SameTarget(Firsts(tasks, n)[j], Firsts(tasks, n)[k])
  {
    var before := Firsts(tasks, n - 1);
    if k < |before| {
      FirstsDiffer(tasks, n - 1, j, k);
    } else {
      FirstsAreTasks(tasks, n - 1, before[j]);
    }
  }

  /** The file of `t` is written by a task that expects what `t` expects. */
  predicate Served(kept: seq<Task>, t: Task) {
    t in kept || exists s :: s in kept && SameTarget(s, t) && s.expected == t.expected
  }

  lemma {:induction false} FirstsServe(tasks: seq<Task>, n: nat, j: nat)
    requires j < n <= |tasks| && AllAgree(tasks, n)
    ensures Served(Firsts(tasks, n), tasks[j])
  {
    var before, after := Firsts(tasks, n - 1), Firsts(tasks, n);
    assert forall s :: s in before ==> s in after;
    if j < n - 1 {
      FirstsServe(tasks, n - 1, j);
    } else if Repeats(tasks, j) {
      var i :| 0 <= i < j && SameTarget(tasks[i], tasks[j]);
      FirstsServe(tasks, n - 1, i);
      assert Agree(tasks[i], tasks[j]);
    }
  }

  /** After deduplication no two tasks write one file, and every file of a task is still written by one like it. */
  lemma OneTaskPerTarget(tasks: seq<Task>)
    requires AllAgree(tasks, |tasks|)
    ensures var kept := Firsts(tasks, |tasks|);
            (forall j, k :: 0 <= j < k < |kept| ==> !SameTarget(kept[j], kept[k]))
            && (forall j :: 0 <= j < |tasks| ==> Served(kept, tasks[j]))
  {
    hide Firsts, Served, AllAgree, SameTarget;
    var kept := Firsts(tasks, |tasks|);
    forall j, k | 0 <= j < k < |kept| ensures !SameTarget(kept[j], kept[k]) {
      FirstsDiffer(tasks, |tasks|, j, k);
    }
    forall j | 0 <= j < |tasks| ensures Served(kept, tasks[j]) {
      FirstsServe(tasks, |tasks|, j);
    }
  }
}
