/** Normalisers applied to user-supplied priority and status labels. */
module TaskValidators {
  import opened Results
  import opened Text
  import Config

  /** The dict comprehension `{label.lower(): level ...}`: entries are added
      in order, so a later label with the same lower-cased key would win. */
  function LevelsOf(ps: seq<(int, string)>): (m: map<string, int>)
    decreases |ps|
  {
    if |ps| == 0 then map[]
    else LevelsOf(ps[..|ps| - 1])[Lower(ps[|ps| - 1].1) := ps[|ps| - 1].0]
  }

  /** `task_priority_levels`. */
  function PriorityLevels(): map<string, int> {
    LevelsOf(Config.PriorityLabels)
  }

  lemma {:induction false} LevelsOfKeys(ps: seq<(int, string)>, key: string)
    ensures key in LevelsOf(ps) <==> exists i :: 0 <= i < |ps| && Lower(ps[i].1) == key
    decreases |ps|
  {
    if |ps| > 0 {
      var init := ps[..|ps| - 1];
      LevelsOfKeys(init, key);
      if exists i :: 0 <= i < |init| && Lower(init[i].1) == key {
        var i :| 0 <= i < |init| && Lower(init[i].1) == key;
        assert ps[i] == init[i];
      }
      if exists i :: 0 <= i < |ps| && Lower(ps[i].1) == key {
        var i :| 0 <= i < |ps| && Lower(ps[i].1) == key;
        if i < |init| {
          assert init[i] == ps[i];
        }
      }
    }
  }

  /** With pairwise distinct lower-cased labels, each label's key holds its own level. */
  lemma {:induction false} LevelsOfLookup(ps: seq<(int, string)>, i: int)
    requires 0 <= i < |ps|
    requires forall j :: 0 <= j < |ps| && j != i ==> Lower(ps[j].1) != Lower(ps[i].1)
    ensures Lower(ps[i].1) in LevelsOf(ps)
    ensures LevelsOf(ps)[Lower(ps[i].1)] == ps[i].0
    decreases |ps|
  {
    if i < |ps| - 1 {
      var init := ps[..|ps| - 1];
      forall j | 0 <= j < |init| && j != i
        ensures Lower(init[j].1) != Lower(init[i].1)
      {
        assert init[j] == ps[j] && init[i] == ps[i];
      }
      LevelsOfLookup(init, i);
      assert init[i] == ps[i];
    }
  }

  lemma PriorityLabelsDistinct()
    ensures forall i, j :: 0 <= i < |Config.PriorityLabels| && 0 <= j < |Config.PriorityLabels| && i != j ==>
      Lower(Config.PriorityLabels[i].1) != Lower(Config.PriorityLabels[j].1)
  {
    var L := Config.PriorityLabels;
    assert Lower(L[0].1)[0] == 'h';
    assert Lower(L[1].1)[0] == 'c';
    assert Lower(L[2].1)[0] == 'a' && Lower(L[2].1)[1] == 'l';
    assert Lower(L[3].1)[0] == 'a' && Lower(L[3].1)[1] == 'c';
    assert Lower(L[4].1)[0] == 'l';
  }

  /** `task_priority_levels` is the inverse of the configured level-to-label
      table, keyed case-insensitively: its keys are exactly the lower-cased
      labels and each maps back to its own level. */
  lemma PriorityLevelsInvert()
    ensures forall key :: key in PriorityLevels() <==>
      exists i :: 0 <= i < |Config.PriorityLabels| && Lower(Config.PriorityLabels[i].1) == key
    ensures forall i :: 0 <= i < |Config.PriorityLabels| ==>
      Lower(Config.PriorityLabels[i].1) in PriorityLevels() &&
      PriorityLevels()[Lower(Config.PriorityLabels[i].1)] == Config.PriorityLabels[i].0
  {
    forall key
      ensures key in PriorityLevels() <==>
        exists i :: 0 <= i < |Config.PriorityLabels| && Lower(Config.PriorityLabels[i].1) == key
    {
      LevelsOfKeys(Config.PriorityLabels, key);
    }
    PriorityLabelsDistinct();
    forall i | 0 <= i < |Config.PriorityLabels|
      ensures Lower(Config.PriorityLabels[i].1) in PriorityLevels()
      ensures PriorityLevels()[Lower(Config.PriorityLabels[i].1)] == Config.PriorityLabels[i].0
    {
      LevelsOfLookup(Config.PriorityLabels, i);
    }
  }

  const PriorityError: string := "Task priority must be one of: " + Guillemets(Config.PriorityNames)

  /** A priority label, in any letter case, becomes its importance level. */
  function CheckTaskPriority(name: string): (r: Result<int>)
    ensures r.Ok? || r.Invalid?
    ensures r.Ok? <==>
      exists i :: 0 <= i < |Config.PriorityLabels| && Lower(name) == Lower(Config.PriorityLabels[i].1)
    ensures forall i :: 0 <= i < |Config.PriorityLabels| && Lower(name) == Lower(Config.PriorityLabels[i].1) ==>
      r == Ok(Config.PriorityLabels[i].0)
    ensures r.Ok? ==> 1 <= r.value <= 5
    ensures r.Invalid? ==> r.message == PriorityError
  {
    PriorityLevelsInvert();
    var key := Lower(name);
    if key in PriorityLevels() then Ok(PriorityLevels()[key]) else Invalid(PriorityError)
  }

  /** The priority error lists all five labels. */
  lemma PriorityErrorListsLabels()
    ensures forall i :: 0 <= i < |Config.PriorityNames| ==> Occurs(Config.PriorityNames[i], PriorityError)
  {
    forall i | 0 <= i < |Config.PriorityNames|
      ensures Occurs(Config.PriorityNames[i], PriorityError)
    {
      GuillemetsMention(Config.PriorityNames, i);
      OccursInRight(Config.PriorityNames[i], "Task priority must be one of: ", Guillemets(Config.PriorityNames));
    }
  }

  /** Lower-cased name of some configured status. */
  predicate KnownStatus(name: string) {
    Lower(name) in (set s | s in Config.Statuses :: Lower(s))
  }

  const StatusError: string := "Task status must be one of: " + Guillemets(Config.Statuses)

  /** A status label is accepted in any letter case and returned as typed. */
  function CheckTaskStatus(name: string): (r: Result<string>)
    ensures r.Ok? || r.Invalid?
    ensures r.Ok? <==> exists i :: 0 <= i < |Config.Statuses| && Lower(name) == Lower(Config.Statuses[i])
    ensures r.Ok? ==> r.value == name
    ensures r.Invalid? ==> r.message == StatusError
  {
    if KnownStatus(name) then Ok(name) else Invalid(StatusError)
  }

  /** Accepting a status is idempotent: what it returns is accepted unchanged. */
  lemma CheckTaskStatusIdempotent(name: string)
    requires CheckTaskStatus(name).Ok?
    ensures CheckTaskStatus(CheckTaskStatus(name).value) == CheckTaskStatus(name)
  {
  }

  /** The status error lists all four statuses. */
  lemma StatusErrorListsStatuses()
    ensures forall i :: 0 <= i < |Config.Statuses| ==> Occurs(Config.Statuses[i], StatusError)
  {
    forall i | 0 <= i < |Config.Statuses|
      ensures Occurs(Config.Statuses[i], StatusError)
    {
      GuillemetsMention(Config.Statuses, i);
      OccursInRight(Config.Statuses[i], "Task status must be one of: ", Guillemets(Config.Statuses));
    }
  }
}
