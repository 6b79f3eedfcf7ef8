/** Drawing event ids from several threads. `_id_cnt++` is done before the mutex is taken, so it is
    a read and a later write; between them other threads may do the same. */
module RegistryIds {
  import opened CTypes

  /** Thread `t` reads the counter, which is the id it draws, or writes back its successor. */
  datatype Label = Read(t: nat) | Write(t: nat)

  /** `open` has what each thread has read and not yet written back. */
  datatype State = State(cnt: nat, open: map<nat, nat>, ids: seq<nat>)

  function Step(s: State, l: Label): Option<State> {
    match l
    case Read(t) =>
      if t in s.open then None else Some(State(s.cnt, s.open[t := s.cnt], s.ids + [s.cnt]))
    case Write(t) =>
      if t !in s.open then None
      else Some(State((s.open[t] + 1) % 0x1_0000_0000_0000_0000, s.open - {t}, s.ids))
  }

  function Exec(labels: seq<Label>): Option<State> {
    if labels == [] then Some(State(0, map[], []))
    else
      var s := Exec(labels[..|labels| - 1]);
      if s.None? then None else Step(s.value, labels[|labels| - 1])
  }

  /** No thread reads while another has yet to write back. */
  ghost predicate Apart(labels: seq<Label>)
    requires Exec(labels).Some?
  {
    labels == [] ||
      (Apart(labels[..|labels| - 1])
       && (labels[|labels| - 1].Read? ==> Exec(labels[..|labels| - 1]).value.open == map[]))
  }

  ghost predicate Unique(ids: seq<nat>) {
    forall i, j :: 0 <= i < j < |ids| ==> ids[i] != ids[j]
  }

  /** Threads kept apart draw 0, 1, 2 and so on. */
  ghost predicate Consecutive(s: State) {
    && (forall i :: 0 <= i < |s.ids| ==> s.ids[i] == i)
    && (if s.open == map[] then s.cnt == |s.ids|
        else exists t :: s.open == map[t := s.cnt] && s.cnt == |s.ids| - 1)
  }

  lemma StepConsecutive(s: State, l: Label)
    requires Consecutive(s) && |s.ids| < 0x1_0000_0000_0000_0000 && (l.Read? ==> s.open == map[]) && Step(s, l).Some?
    ensures Consecutive(Step(s, l).value)
  {
    var s' := Step(s, l).value;
    match l {
      case Read(t) =>
        assert s'.open == map[t := s'.cnt];
      case Write(t) =>
        var u :| s.open == map[u := s.cnt];
        assert t in s.open && u in s.open;
        assert s'.open == map[];
    }
  }

  lemma {:induction false} ApartConsecutive(labels: seq<Label>)
    requires Exec(labels).Some? && Apart(labels) && |labels| < 0x1_0000_0000_0000_0000
    ensures Consecutive(Exec(labels).value) && |Exec(labels).value.ids| <= |labels|
    decreases |labels|
  {
    if labels != [] {
      var last := |labels| - 1;
      ApartConsecutive(labels[..last]);
      StepConsecutive(Exec(labels[..last]).value, labels[last]);
    }
  }

  lemma {:induction false} OverlapRepeats(labels: seq<Label>)
    requires Exec(labels).Some? && !Apart(labels) && |labels| < 0x1_0000_0000_0000_0000
    ensures !Unique(Exec(labels).value.ids)
    decreases |labels|
  {
    var last := |labels| - 1;
    var s, s' := Exec(labels[..last]).value, Exec(labels).value;
    if Apart(labels[..last]) {
      ApartConsecutive(labels[..last]);
      assert s'.ids[|s.ids| - 1] == s'.ids[|s.ids|] == s.cnt;
    } else {
      OverlapRepeats(labels[..last]);
      var i, j :| 0 <= i < j < |s.ids| && s.ids[i] == s.ids[j];
      assert s'.ids[i] == s'.ids[j];
    }
  }

  /** In any run that does not exhaust the counter, ids are unique exactly if no thread reads the
      counter while another is between its read and its write: with one scheduling thread they
      always are, and any overlap gives two events the same id. */
  lemma UniqueExactly(labels: seq<Label>)
    requires Exec(labels).Some? && |labels| < 0x1_0000_0000_0000_0000
    ensures Unique(Exec(labels).value.ids) <==> Apart(labels)
  {
    if Apart(labels) {
      ApartConsecutive(labels);
    } else {
      OverlapRepeats(labels);
    }
  }

  /** One thread alone is always apart. */
  lemma {:induction false} OneThreadApart(labels: seq<Label>, t: nat)
    requires Exec(labels).Some? && forall l :: l in labels ==> l.t == t
    ensures Apart(labels) && Exec(labels).value.open.Keys <= {t}
    decreases |labels|
  {
    if labels != [] {
      var last := |labels| - 1;
      assert labels[last] in labels;
      OneThreadApart(labels[..last], t);
    }
  }
}
