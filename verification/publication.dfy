/** Publishing the rendered export: a second crash-safe protocol over the same checkpoint and one destination path. */
module Publication {
  import opened Common
  import opened CheckpointStore

  /** A fingerprint names one file: it survives rename and hard link, and is absent for a missing path. */
  datatype File = File(fingerprint: Fingerprint, content: string)

  function PrintOf(file: Option<File>): StateValue {
    if file.None? then Null else Print(file.value.fingerprint)
  }

  class Disk {
    var output: Option<File>
    var temporary: Option<File>

    constructor ()
      ensures output == None && temporary == None
    {
      output, temporary := None, None;
    }
  }

  /** Completed, stopped by a crash between two effects, refused because the destination is not ours, or failed to
      link because somebody took the free destination at the last moment. */
  datatype Outcome = Completed | Crashed | ChangedIndependently | DestinationTaken

  /** What somebody else does to the destination at one moment, if anything. */
  type Change = Option<Option<File>>

  function Changed(output: Option<File>, change: Change): Option<File> {
    if change.Some? then change.value else output
  }

  /** The destination is the file last published, or the one whose publication was announced. */
  ghost predicate Accounted(state: State, output: Option<File>) {
    || PrintOf(output) == Read(state, Published)
    || (Read(state, PendingPublish) != Null && PrintOf(output) == Read(state, PendingPublish))
  }

  ghost predicate OnlyPublication(before: State, after: State) {
    forall key :: key != Published && key != PendingPublish ==> Read(before, key) == Read(after, key)
  }

  /** One publication, possibly after a resume. Somebody else may change the destination `between` two publications,
      before the final check (`early`), between that check and the test whether the destination exists (`late`),
      between that test and the move (`last`), and after the move, before the destination is read back (`after`).
      `budget` counts the effects until a crash. */
  datatype Attempt = Attempt(rendered: File, resumed: bool, budget: nat,
                             between: Change, early: Change, late: Change, last: Change, after: Change)

  function Quiet(rendered: File, budget: nat): Attempt {
    Attempt(rendered, true, budget, None, None, None, None, None)
  }

  // ---------------------------------------------------------------- one publication, as values

  /** What a publication sees and leaves: the destination and the two fingerprints of the checkpoint. */
  datatype Place = Place(output: Option<File>, published: StateValue, pending: StateValue)

  function PlaceOf(state: State, output: Option<File>): Place {
    Place(output, Read(state, Published), Read(state, PendingPublish))
  }

  /** An announced publication that did happen becomes the published one. */
  function Resumed(p: Place): Place {
    if p.pending != Null && PrintOf(p.output) == p.pending then p.(published := p.pending) else p
  }

  function Begun(p: Place, a: Attempt): Place {
    var q := p.(output := Changed(p.output, a.between));
    if a.resumed then Resumed(q) else q
  }

  predicate Opens(p: Place, a: Attempt) {
    PrintOf(p.output) == p.published && a.budget > 0
  }

  /** Both checks pass. */
  predicate Checks(p: Place, a: Attempt) {
    Opens(p, a) && PrintOf(Changed(p.output, a.early)) == p.published
  }

  function AtTest(p: Place, a: Attempt): Option<File> {
    Changed(Changed(p.output, a.early), a.late)
  }

  function AtMove(p: Place, a: Attempt): Option<File> {
    Changed(AtTest(p, a), a.last)
  }

  /** Somebody took the free destination right before the link. */
  predicate BeatsLink(p: Place, a: Attempt) {
    AtTest(p, a).None? && AtMove(p, a).Some?
  }

  predicate Moves(p: Place, a: Attempt) {
    Checks(p, a) && a.budget >= 3 && !BeatsLink(p, a)
  }

  /** The destination is read back and recorded as published. */
  predicate Marks(p: Place, a: Attempt) {
    Moves(p, a) && a.budget >= 4
  }

  function AfterPublish(p: Place, a: Attempt): Place {
    if !Opens(p, a) then p
    else if !Checks(p, a) || a.budget == 1 then p.(output := Changed(p.output, a.early))
    else
      var announced := p.(pending := Print(a.rendered.fingerprint));
      if a.budget == 2 then announced.(output := AtTest(p, a))
      else if BeatsLink(p, a) then announced.(output := AtMove(p, a))
      else
        var output := Changed(Some(a.rendered), a.after);
        if a.budget == 3 then announced.(output := output)
        else Place(output, PrintOf(output), if a.budget == 4 then announced.pending else Null)
  }

  function OutcomeOf(p: Place, a: Attempt): Outcome {
    if PrintOf(p.output) != p.published then ChangedIndependently
    else if a.budget == 0 then Crashed
    else if !Checks(p, a) then ChangedIndependently
    else if a.budget <= 2 then Crashed
    else if BeatsLink(p, a) then DestinationTaken
    else if a.budget <= 4 then Crashed
    else Completed
  }

  /** The destination's file that the move puts its own in the place of. */
  function Replaced(p: Place, a: Attempt): Option<File> {
    if Moves(Begun(p, a), a) then AtMove(Begun(p, a), a) else None
  }

  // ---------------------------------------------------------------- one publication, as it happens

  /** The resume step: an announced publication that did happen becomes the published one. */
  method Resume(cp: Checkpoint, disk: Disk)
    modifies cp
    ensures cp.records == old(cp.records) && OnlyPublication(old(cp.state), cp.state)
    ensures Accounted(old(cp.state), disk.output) ==> PrintOf(disk.output) == Read(cp.state, Published)
    ensures !Accounted(old(cp.state), disk.output) ==> PrintOf(disk.output) != Read(cp.state, Published)
    ensures PlaceOf(cp.state, disk.output) == Resumed(PlaceOf(old(cp.state), disk.output))
  {
    var pending := Read(cp.state, PendingPublish);
    if pending != Null && PrintOf(disk.output) == pending {
      cp.Mark(Published, pending);
    }
  }

  /** Renders into a temporary file and moves it over the destination, while somebody else may change it. */
  method Publish(cp: Checkpoint, disk: Disk, a: Attempt) returns (outcome: Outcome)
    modifies cp, disk
    ensures cp.records == old(cp.records) && OnlyPublication(old(cp.state), cp.state)
    ensures PlaceOf(cp.state, disk.output) == AfterPublish(old(PlaceOf(cp.state, disk.output)), a)
    ensures outcome == OutcomeOf(old(PlaceOf(cp.state, disk.output)), a)
    // with nobody else around
    ensures a.early.None? && a.late.None? && a.last.None? && a.after.None? && old(Accounted(cp.state, disk.output)) ==>
              Accounted(cp.state, disk.output)
    ensures a.early.None? && a.late.None? && a.last.None? && a.after.None? ==>
              disk.output in {old(disk.output), Some(a.rendered)}
    ensures outcome.ChangedIndependently? <==>
              || PrintOf(old(disk.output)) != Read(old(cp.state), Published)
              || (a.budget > 0 && a.early.Some? && PrintOf(a.early.value) != Read(old(cp.state), Published))
    ensures a.budget >= 5 ==> !outcome.Crashed?
    // what is read back after the move is what is recorded, whoever put it there
    ensures outcome.Completed? ==>
              && disk.output == Changed(Some(a.rendered), a.after)
              && Read(cp.state, Published) == PrintOf(disk.output) && Read(cp.state, PendingPublish) == Null
    // before the final check: it decides alone
    ensures PrintOf(Changed(old(disk.output), a.early)) != Read(old(cp.state), Published) ==>
              && !outcome.Completed? && cp.state == old(cp.state)
              && disk.output in {Changed(old(disk.output), a.early), old(disk.output)}
    // past the check every change is replaced, but for a file that takes a free destination right before the link,
    // and one that arrives after the move
    ensures !outcome.ChangedIndependently? && a.budget >= 3 ==>
              var tested := Changed(Changed(old(disk.output), a.early), a.late);
              && (outcome.DestinationTaken? <==> tested.None? && Changed(tested, a.last).Some?)
              && disk.output == if outcome.DestinationTaken? then a.last.value else Changed(Some(a.rendered), a.after)
    ensures outcome.DestinationTaken? ==>
              && a.budget >= 3 && disk.temporary == None
              && cp.state == old(cp.state)[PendingPublish := Print(a.rendered.fingerprint)]
    ensures a.budget < 3 && disk.output != old(disk.output) ==>
              (a.early.Some? && disk.output == a.early.value) || (a.late.Some? && disk.output == a.late.value)
  {
    if PrintOf(disk.output) != Read(cp.state, Published) {
      return ChangedIndependently;
    }
    if a.budget == 0 {
      return Crashed;
    }
    disk.temporary := Some(a.rendered);
    disk.output := Changed(disk.output, a.early);
    if PrintOf(disk.output) != Read(cp.state, Published) {
      disk.temporary := None;
      return ChangedIndependently;
    }
    if a.budget == 1 {
      return Crashed;
    }
    cp.Mark(PendingPublish, PrintOf(disk.temporary));
    disk.output := Changed(disk.output, a.late);
    if a.budget == 2 {
      return Crashed;
    }
    var present := disk.output.Some?;
    disk.output := Changed(disk.output, a.last);
    if present {
      disk.output := disk.temporary;
      disk.temporary := None;
    } else if disk.output.Some? {
      disk.temporary := None;
      return DestinationTaken;
    } else {
      disk.output := disk.temporary;
    }
    disk.output := Changed(disk.output, a.after);
    if a.budget == 3 {
      return Crashed;
    }
    cp.Mark(Published, PrintOf(disk.output));
    if a.budget == 4 {
      return Crashed;
    }
    cp.Mark(PendingPublish, Null);
    disk.temporary := None;
    outcome := Completed;
  }

  /** Attempts that each resume, publish their own rendering, and may crash after any effect. */
  method PublishUntilDone(cp: Checkpoint, disk: Disk, renderings: seq<File>,
                          budgets: seq<nat>) returns (outcome: Outcome)
    requires |renderings| == |budgets|
    requires Accounted(cp.state, disk.output)
    modifies cp, disk
    ensures Accounted(cp.state, disk.output) && !outcome.ChangedIndependently?
    ensures cp.records == old(cp.records)
    ensures disk.output == old(disk.output) || exists i :: 0 <= i < |renderings| && disk.output == Some(renderings[i])
    ensures (exists i :: 0 <= i < |budgets| && budgets[i] >= 5) ==> outcome.Completed?
    ensures outcome.Completed? ==> PrintOf(disk.output) == Read(cp.state, Published)
  {
    outcome := Crashed;
    for i := 0 to |renderings|
      invariant Accounted(cp.state, disk.output)
      invariant cp.records == old(cp.records)
      invariant disk.output == old(disk.output) || exists k :: 0 <= k < i && disk.output == Some(renderings[k])
      invariant forall k :: 0 <= k < i ==> budgets[k] < 5
    {
      Resume(cp, disk);
      outcome := Publish(cp, disk, Quiet(renderings[i], budgets[i]));
      if outcome.Completed? {
        return;
      }
    }
    outcome := Crashed;
  }

  /** Once the final check has passed, a foreign file is at the destination afterwards exactly when it took a free
      destination between the existence test and the link, or arrived after the move; in the second case its
      fingerprint is recorded as the published one. */
  method LateFileSurvivesExactlyWhen(cp: Checkpoint, disk: Disk, a: Attempt) returns (outcome: Outcome)
    requires PrintOf(disk.output) == Read(cp.state, Published) && a.budget >= 3 && a.early.None?
    modifies cp, disk
    ensures var tested := Changed(old(disk.output), a.late);
            var linked := !(tested.None? && Changed(tested, a.last).Some?);
            && (disk.output != Some(a.rendered) <==>
                  if linked then a.after.Some?
                    && a.after.value != Some(a.rendered) else a.last.value != Some(a.rendered))
            && (outcome.DestinationTaken? <==> !linked)
            && (linked && a.budget >= 4 ==> Read(cp.state, Published) == PrintOf(disk.output))
            && (!linked ==> Read(cp.state, Published) == Read(old(cp.state), Published))
  {
    outcome := Publish(cp, disk, a);
  }

  // ---------------------------------------------------------------- any number of attempts

  function After(p: Place, a: Attempt): Place {
    AfterPublish(Begun(p, a), a)
  }

  ghost predicate IsRun(places: seq<Place>, attempts: seq<Attempt>) {
    && |places| == |attempts| + 1
    && forall k :: 0 <= k < |attempts| ==> places[k + 1] == After(places[k], attempts[k])
  }

  /** Attempts over one checkpoint, each with changes of somebody else at every moment, are runs of this kind. */
  method PublishAttempts(cp: Checkpoint, disk: Disk, attempts: seq<Attempt>) returns (ghost places: seq<Place>)
    modifies cp, disk
    ensures cp.records == old(cp.records) && OnlyPublication(old(cp.state), cp.state)
    ensures IsRun(places, attempts) && places[0] == old(PlaceOf(cp.state, disk.output))
    ensures places[|attempts|] == PlaceOf(cp.state, disk.output)
  {
    places := [PlaceOf(cp.state, disk.output)];
    for i := 0 to |attempts|
      invariant cp.records == old(cp.records) && OnlyPublication(old(cp.state), cp.state)
      invariant IsRun(places, attempts[..i]) && places[0] == old(PlaceOf(cp.state, disk.output))
      invariant places[i] == PlaceOf(cp.state, disk.output)
    {
      ghost var before := PlaceOf(cp.state, disk.output);
      disk.output := Changed(disk.output, attempts[i].between);
      if attempts[i].resumed {
        Resume(cp, disk);
      }
      var outcome := Publish(cp, disk, attempts[i]);
      assert PlaceOf(cp.state, disk.output) == After(before, attempts[i]);
      places := places + [PlaceOf(cp.state, disk.output)];
    }
    assert attempts[..|attempts|] == attempts;
  }

  /** A file of somebody else: neither rendered by an attempt nor known to the checkpoint at the start. */
  ghost predicate Foreign(f: File, start: Place, attempts: seq<Attempt>) {
    && PrintOf(Some(f)) != PrintOf(start.output)
    && PrintOf(Some(f)) != start.published && PrintOf(Some(f)) != start.pending
    && forall k :: 0 <= k < |attempts| ==> attempts[k].rendered.fingerprint != f.fingerprint
  }

  /** The file was the last change past the final check. */
  predicate ArrivesPastCheck(a: Attempt, f: File) {
    a.last == Some(Some(f)) || (a.last.None? && a.late == Some(Some(f)))
  }

  /** The attempt found the file when it read the destination back, and recorded it as published. */
  predicate Adopts(p: Place, a: Attempt, f: File) {
    Marks(Begun(p, a), a) && a.after.Some? && PrintOf(a.after.value) == PrintOf(Some(f))
  }

  ghost predicate AdoptedBefore(places: seq<Place>, attempts: seq<Attempt>, n: nat, f: File)
    requires |places| == |attempts| + 1 && n <= |attempts|
  {
    exists j :: 0 <= j < n && Adopts(places[j], attempts[j], f)
  }

  /** A foreign fingerprint becomes the published one only by adoption, and never the announced one. */
  lemma {:induction false} PublishedMeansAdopted(places: seq<Place>, attempts: seq<Attempt>, n: nat, f: File)
    requires IsRun(places, attempts) && n <= |attempts| && Foreign(f, places[0], attempts)
    ensures places[n].pending != PrintOf(Some(f))
    ensures places[n].published == PrintOf(Some(f)) ==> AdoptedBefore(places, attempts, n, f)
  {
    if n > 0 {
      PublishedMeansAdopted(places, attempts, n - 1, f);
      var p, a := places[n - 1], attempts[n - 1];
      assert places[n] == After(p, a) && a.rendered.fingerprint != f.fingerprint;
      if places[n].published == PrintOf(Some(f)) && p.published != PrintOf(Some(f)) {
        assert Adopts(p, a, f);
      }
    }
  }

  /** Whatever happens at whatever moment: an attempt replaces a foreign file if and only if it gets to its move and
      the file either arrived past the final check, or was adopted by an earlier attempt and is still there. */
  lemma ReplacedExactlyWhen(places: seq<Place>, attempts: seq<Attempt>, k: nat, f: File)
    requires IsRun(places, attempts) && k < |attempts| && Foreign(f, places[0], attempts)
    ensures var a, q := attempts[k], Begun(places[k], attempts[k]);
            Replaced(places[k], a) == Some(f) <==>
              && Moves(q, a)
              && (ArrivesPastCheck(a, f)
                  || (a.late.None? && a.last.None? && Changed(q.output, a.early) == Some(f)
                      && AdoptedBefore(places, attempts, k, f)))
  {
    PublishedMeansAdopted(places, attempts, k, f);
  }

  // ---------------------------------------------------------------- one foreign file

  datatype Moment = Between | Early | Late | Last | Afterwards

  function ChangeAt(a: Attempt, m: Moment): Change {
    match m
    case Between => a.between
    case Early => a.early
    case Late => a.late
    case Last => a.last
    case Afterwards => a.after
  }

  /** Somebody else acts once: at this moment of this attempt they put the file at the destination. */
  ghost predicate OnlyChange(attempts: seq<Attempt>, i: nat, m: Moment, f: File) {
    && i < |attempts|
    && forall k, moment :: 0 <= k < |attempts| ==>
         ChangeAt(attempts[k], moment) == if k == i && moment == m then Some(Some(f)) else None
  }

  /** The attempt gets as far as that moment. */
  predicate Arrives(p: Place, a: Attempt, m: Moment) {
    var q := Begun(p, a);
    match m
    case Between => true
    case Early => Opens(q, a)
    case Late => Checks(q, a) && a.budget >= 2
    case Last => Checks(q, a) && a.budget >= 3
    case Afterwards => Moves(q, a)
  }

  /** The exact condition: past the check and before the move, not beating the link; or adopted, with a later attempt
      that gets to its move. */
  ghost predicate Endangered(places: seq<Place>, attempts: seq<Attempt>, i: nat, m: Moment)
    requires |places| == |attempts| + 1 && i < |attempts|
  {
    var q := Begun(places[i], attempts[i]);
    || ((m == Late || m == Last) && Moves(q, attempts[i]))
    || (m == Afterwards && Marks(q, attempts[i]) && exists k :: i < k < |attempts| && attempts[k].budget >= 3)
  }

  lemma NoOtherChange(attempts: seq<Attempt>, i: nat, m: Moment, f: File, k: nat)
    requires OnlyChange(attempts, i, m, f) && k < |attempts|
    ensures forall moment :: (k != i || moment != m) ==> ChangeAt(attempts[k], moment) == None
    ensures var a := attempts[k];
            && (k != i ==> a.between.None? && a.early.None? && a.late.None? && a.last.None? && a.after.None?)
            && (ArrivesPastCheck(a, f) ==> k == i && (m == Late || m == Last))
            && (a.after.Some? ==> k == i && m == Afterwards)
  {
    var a := attempts[k];
    assert ChangeAt(a, Between) == a.between && ChangeAt(a, Early) == a.early && ChangeAt(a, Late) == a.late
        && ChangeAt(a, Last) == a.last && ChangeAt(a, Afterwards) == a.after;
  }

  /** An adopted file stays where it is until an attempt gets to its move. */
  lemma {:induction false} AdoptedStays(places: seq<Place>, attempts: seq<Attempt>, i: nat, n: nat, f: File)
    requires IsRun(places, attempts) && OnlyChange(attempts, i, Afterwards, f) && Foreign(f, places[0], attempts)
    requires Marks(Begun(places[i], attempts[i]), attempts[i]) && i < n <= |attempts|
    requires forall k :: i < k < n ==> attempts[k].budget < 3
    ensures places[n].output == Some(f) && places[n].published == PrintOf(Some(f))
  {
    if n == i + 1 {
      assert ChangeAt(attempts[i], Afterwards) == attempts[i].after;
    } else {
      AdoptedStays(places, attempts, i, n - 1, f);
      NoOtherChange(attempts, i, Afterwards, f, n - 1);
      PublishedMeansAdopted(places, attempts, n - 1, f);
    }
  }

  lemma {:induction false} FirstLongAttempt(attempts: seq<Attempt>, i: nat, k: nat) returns (n: nat)
    requires i < k < |attempts| && attempts[k].budget >= 3
    ensures i < n <= k && attempts[n].budget >= 3 && forall j :: i < j < n ==> attempts[j].budget < 3
  {
    if j :| i < j < k && attempts[j].budget >= 3 {
      n := FirstLongAttempt(attempts, i, j);
    } else {
      n := k;
    }
  }

  lemma AdoptedIsReplaced(places: seq<Place>, attempts: seq<Attempt>, i: nat, k: nat, f: File) returns (n: nat)
    requires IsRun(places, attempts) && OnlyChange(attempts, i, Afterwards, f) && Foreign(f, places[0], attempts)
    requires Marks(Begun(places[i], attempts[i]), attempts[i]) && i < k < |attempts| && attempts[k].budget >= 3
    ensures n < |attempts| && Replaced(places[n], attempts[n]) == Some(f)
  {
    n := FirstLongAttempt(attempts, i, k);
    AdoptedStays(places, attempts, i, n, f);
    NoOtherChange(attempts, i, Afterwards, f, n);
    PublishedMeansAdopted(places, attempts, n, f);
  }

  /** What is not replaced stays. */
  lemma {:induction false} UnreplacedStays(places: seq<Place>, attempts: seq<Attempt>, i: nat, m: Moment, f: File,
                                           n: nat)
    requires IsRun(places, attempts) && OnlyChange(attempts, i, m, f) && i < n <= |attempts|
    requires Arrives(places[i], attempts[i], m)
    requires forall k :: i <= k < n ==> Replaced(places[k], attempts[k]) != Some(f)
    ensures places[n].output == Some(f)
  {
    if n == i + 1 {
      var a := attempts[i];
      assert ChangeAt(a, Between) == a.between && ChangeAt(a, Early) == a.early && ChangeAt(a, Late) == a.late
          && ChangeAt(a, Last) == a.last && ChangeAt(a, Afterwards) == a.after;
      assert Replaced(places[i], a) != Some(f);
    } else {
      UnreplacedStays(places, attempts, i, m, f, n - 1);
      NoOtherChange(attempts, i, m, f, n - 1);
      assert Replaced(places[n - 1], attempts[n - 1]) != Some(f);
    }
  }

  /** Over any sequence of attempts, for a foreign file put at the destination at any moment: some attempt replaces it
      exactly under the condition, and otherwise it is there at the end. */
  lemma ForeignFileIsReplacedExactlyWhen(places: seq<Place>, attempts: seq<Attempt>, i: nat, m: Moment, f: File)
    requires IsRun(places, attempts) && OnlyChange(attempts, i, m, f) && Foreign(f, places[0], attempts)
    ensures (exists k :: 0 <= k < |attempts| && Replaced(places[k], attempts[k]) == Some(f))
            <==> Endangered(places, attempts, i, m)
    ensures Arrives(places[i], attempts[i], m) && !Endangered(places, attempts, i, m) ==>
              places[|attempts|].output == Some(f)
  {
    if exists k :: 0 <= k < |attempts| && Replaced(places[k], attempts[k]) == Some(f) {
      var k :| 0 <= k < |attempts| && Replaced(places[k], attempts[k]) == Some(f);
      ReplacedIsEndangered(places, attempts, i, m, f, k);
    }
    if Endangered(places, attempts, i, m) {
      var n := EndangeredIsReplaced(places, attempts, i, m, f);
    } else if Arrives(places[i], attempts[i], m) {
      UnreplacedStays(places, attempts, i, m, f, |attempts|);
    }
  }

  lemma ReplacedIsEndangered(places: seq<Place>, attempts: seq<Attempt>, i: nat, m: Moment, f: File, k: nat)
    requires IsRun(places, attempts) && OnlyChange(attempts, i, m, f) && Foreign(f, places[0], attempts)
    requires k < |attempts| && Replaced(places[k], attempts[k]) == Some(f)
    ensures Endangered(places, attempts, i, m)
  {
    ReplacedExactlyWhen(places, attempts, k, f);
    NoOtherChange(attempts, i, m, f, k);
    if !ArrivesPastCheck(attempts[k], f) {
      var j :| 0 <= j < k && Adopts(places[j], attempts[j], f);
      NoOtherChange(attempts, i, m, f, j);
    }
  }

  lemma EndangeredIsReplaced(places: seq<Place>, attempts: seq<Attempt>, i: nat, m: Moment, f: File) returns (n: nat)
    requires IsRun(places, attempts) && OnlyChange(attempts, i, m, f) && Foreign(f, places[0], attempts)
    requires Endangered(places, attempts, i, m)
    ensures n < |attempts| && Replaced(places[n], attempts[n]) == Some(f)
  {
    if m == Afterwards {
      var k :| i < k < |attempts| && attempts[k].budget >= 3;
      n := AdoptedIsReplaced(places, attempts, i, k, f);
    } else {
      n := i;
      var a := attempts[i];
      assert ChangeAt(a, Late) == a.late && ChangeAt(a, Last) == a.last;
    }
  }

  /** The failing case: nothing is at the destination, a foreign file arrives between the link and the re-read. It is
      recorded as published, and the next publication over the same checkpoint replaces it without complaint. */
  lemma AdoptedFileIsLost(first: File, second: File, f: File) returns (places: seq<Place>, attempts: seq<Attempt>)
    requires f.fingerprint != first.fingerprint && f.fingerprint != second.fingerprint
    ensures attempts == [Quiet(first, 5).(after := Some(Some(f))), Quiet(second, 5)]
    ensures IsRun(places, attempts) && places[0] == Place(None, Null, Null)
    ensures Foreign(f, places[0], attempts) && OnlyChange(attempts, 0, Afterwards, f)
    ensures places[1] == Place(Some(f), Print(f.fingerprint), Null)
    ensures OutcomeOf(places[1], attempts[1]) == Completed && Replaced(places[1], attempts[1]) == Some(f)
    ensures places[2].output == Some(second)
  {
    attempts := [Quiet(first, 5).(after := Some(Some(f))), Quiet(second, 5)];
    var start := Place(None, Null, Null);
    var next := After(start, attempts[0]);
    places := [start, next, After(next, attempts[1])];
    forall k, moment | 0 <= k < |attempts|
      ensures ChangeAt(attempts[k], moment) == if k == 0 && moment == Afterwards then Some(Some(f)) else None
    {
      if k == 1 { assert attempts[1] == Quiet(second, 5); }
    }
  }
}
