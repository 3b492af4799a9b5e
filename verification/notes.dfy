/** The note loop (script.js, lines 75-85): runs of equal levels become
    note events `(uniqueBins[level] + 60, duration)`, each emitted when the
    level changes, so the final run is never emitted. */
module Notes {
  import opened Wrappers
  import LevelTable

  /** A run of `length` consecutive equal levels. */
  datatype Run = Run(level: int, length: nat)

  /** Every run is non-empty and neighbouring runs have different levels. */
  ghost predicate Maximal(rs: seq<Run>)
  {
    && (forall k :: 0 <= k < |rs| ==> rs[k].length >= 1)
    && (forall i, j :: 0 <= i < j < |rs| && j == i + 1 ==> rs[i].level != rs[j].level)
  }

  /** The maximal runs of `q`, from left to right. */
  function Runs(q: seq<int>): (rs: seq<Run>)
    ensures |rs| == 0 <==> |q| == 0
  {
    if |q| == 0 then []
    else
      var rs := Runs(q[..|q| - 1]);
      var x := q[|q| - 1];
      if |rs| > 0 && rs[|rs| - 1].level == x then
        rs[..|rs| - 1] + [Run(x, rs[|rs| - 1].length + 1)]
      else
        rs + [Run(x, 1)]
  }

  function Repeat(x: int, n: nat): (r: seq<int>)
    ensures |r| == n && forall i :: 0 <= i < n ==> r[i] == x
  {
    seq(n, _ => x)
  }

  /** The level sequence a list of runs stands for. */
  function Expand(rs: seq<Run>): seq<int>
  {
    if |rs| == 0 then []
    else Expand(rs[..|rs| - 1]) + Repeat(rs[|rs| - 1].level, rs[|rs| - 1].length)
  }

  /** The summed length of a list of runs. */
  function TotalLength(rs: seq<Run>): nat
  {
    if |rs| == 0 then 0 else TotalLength(rs[..|rs| - 1]) + rs[|rs| - 1].length
  }

  lemma {:induction false} ExpandLength(rs: seq<Run>)
    ensures |Expand(rs)| == TotalLength(rs)
  {
    if |rs| > 0 {
      ExpandLength(rs[..|rs| - 1]);
    }
  }

  lemma {:induction false} ExpandSnoc(rs: seq<Run>, r: Run)
    ensures Expand(rs + [r]) == Expand(rs) + Repeat(r.level, r.length)
    ensures TotalLength(rs + [r]) == TotalLength(rs) + r.length
  {
    assert (rs + [r])[..|rs|] == rs;
  }

  /** The runs partition the sequence: expanding them gives it back. */
  lemma {:induction false} ExpandRuns(q: seq<int>)
    ensures Expand(Runs(q)) == q
  {
    if |q| > 0 {
      ExpandRuns(q[..|q| - 1]);
      ExpandRunsStep(q);
    }
  }

  lemma {:induction false} ExpandRunsStep(q: seq<int>)
    requires |q| > 0 && Expand(Runs(q[..|q| - 1])) == q[..|q| - 1]
    ensures Expand(Runs(q)) == q
  {
    var p := q[..|q| - 1];
    var x := q[|q| - 1];
    assert q == p + [x];
    var rs := Runs(p);
    if |rs| > 0 && rs[|rs| - 1].level == x {
      ExpandGrowLast(p, x);
    } else {
      RunsSnocNew(p, x);
      ExpandSnoc(rs, Run(x, 1));
    }
  }

  lemma {:induction false} ExpandGrowLast(p: seq<int>, x: int)
    requires |Runs(p)| > 0 && Runs(p)[|Runs(p)| - 1].level == x
    ensures Expand(Runs(p + [x])) == Expand(Runs(p)) + [x]
  {
    var rs := Runs(p);
    var init := rs[..|rs| - 1];
    var l := rs[|rs| - 1].length;
    assert rs == init + [Run(x, l)];
    RunsSnocSame(p, x);
    ExpandGrow(init, x, l);
  }

  /** Lengthening the last run by one appends one copy of its level. */
  lemma ExpandGrow(init: seq<Run>, x: int, l: nat)
    ensures Expand(init + [Run(x, l + 1)]) == Expand(init + [Run(x, l)]) + [x]
  {
    ExpandSnoc(init, Run(x, l));
    ExpandSnoc(init, Run(x, l + 1));
    RepeatSnoc(x, l + 1);
  }

  /** One more level equal to the last run's level lengthens that run. */
  lemma {:induction false} RunsSnocSame(p: seq<int>, x: int)
    requires |Runs(p)| > 0 && Runs(p)[|Runs(p)| - 1].level == x
    ensures Runs(p + [x]) == Runs(p)[..|Runs(p)| - 1] + [Run(x, Runs(p)[|Runs(p)| - 1].length + 1)]
  {
    var q := p + [x];
    assert q[..|q| - 1] == p;
  }

  /** One more level different from the last run's level opens a new run. */
  lemma {:induction false} RunsSnocNew(p: seq<int>, x: int)
    requires |Runs(p)| == 0 || Runs(p)[|Runs(p)| - 1].level != x
    ensures Runs(p + [x]) == Runs(p) + [Run(x, 1)]
  {
    var q := p + [x];
    assert q[..|q| - 1] == p;
  }

  /** The runs are maximal and there are no more of them than levels. */
  lemma {:induction false} RunsMaximal(q: seq<int>)
    ensures Maximal(Runs(q))
    ensures |Runs(q)| <= |q|
  {
    if |q| > 0 {
      var p := q[..|q| - 1];
      var x := q[|q| - 1];
      assert q == p + [x];
      RunsMaximal(p);
      RunsMaximalStep(p, x);
    }
  }

  lemma {:induction false} RunsMaximalStep(p: seq<int>, x: int)
    requires Maximal(Runs(p)) && |Runs(p)| <= |p|
    ensures Maximal(Runs(p + [x])) && |Runs(p + [x])| <= |p| + 1
  {
    var rs := Runs(p);
    if |rs| > 0 && rs[|rs| - 1].level == x {
      RunsMaximalSame(p, x);
    } else {
      RunsMaximalNew(p, x);
    }
  }

  lemma RunsMaximalSame(p: seq<int>, x: int)
    requires Maximal(Runs(p)) && |Runs(p)| <= |p|
    requires |Runs(p)| > 0 && Runs(p)[|Runs(p)| - 1].level == x
    ensures Maximal(Runs(p + [x])) && |Runs(p + [x])| <= |p| + 1
  {
    RunsSnocSame(p, x);
    MaximalGrowLast(Runs(p), x);
  }

  lemma RunsMaximalNew(p: seq<int>, x: int)
    requires Maximal(Runs(p)) && |Runs(p)| <= |p|
    requires |Runs(p)| == 0 || Runs(p)[|Runs(p)| - 1].level != x
    ensures Maximal(Runs(p + [x])) && |Runs(p + [x])| <= |p| + 1
  {
    RunsSnocNew(p, x);
    MaximalSnoc(Runs(p), Run(x, 1));
  }

  lemma MaximalGrowLast(rs: seq<Run>, x: int)
    requires |rs| > 0 && Maximal(rs) && rs[|rs| - 1].level == x
    ensures Maximal(rs[..|rs| - 1] + [Run(x, rs[|rs| - 1].length + 1)])
    ensures |rs[..|rs| - 1] + [Run(x, rs[|rs| - 1].length + 1)]| == |rs|
  {
    var rs' := rs[..|rs| - 1] + [Run(x, rs[|rs| - 1].length + 1)];
    assert forall k :: 0 <= k < |rs'| ==> rs'[k].level == rs[k].level;
  }

  lemma MaximalSnoc(rs: seq<Run>, r: Run)
    requires Maximal(rs) && r.length >= 1
    requires |rs| == 0 || rs[|rs| - 1].level != r.level
    ensures Maximal(rs + [r])
  {
  }

  /** The last run carries the last level. */
  lemma RunsLast(q: seq<int>)
    ensures |q| > 0 ==> Runs(q)[|Runs(q)| - 1].level == q[|q| - 1]
  {
    if |q| > 0 {
      var p := q[..|q| - 1];
      assert q == p + [q[|q| - 1]];
      if |Runs(p)| > 0 && Runs(p)[|Runs(p)| - 1].level == q[|q| - 1] {
        RunsSnocSame(p, q[|q| - 1]);
      } else {
        RunsSnocNew(p, q[|q| - 1]);
      }
    }
  }

  /** The first run carries the first level. */
  lemma {:induction false} RunsFirst(q: seq<int>)
    ensures |q| > 0 ==> Runs(q)[0].level == q[0]
  {
    if |q| > 1 {
      var p := q[..|q| - 1];
      assert q == p + [q[|q| - 1]];
      RunsFirst(p);
      if |Runs(p)| > 0 && Runs(p)[|Runs(p)| - 1].level == q[|q| - 1] {
        RunsSnocSame(p, q[|q| - 1]);
      } else {
        RunsSnocNew(p, q[|q| - 1]);
      }
    } else if |q| == 1 {
      assert q == [] + [q[0]];
      RunsSnocNew([], q[0]);
    }
  }

  lemma RepeatSnoc(x: int, l: nat)
    requires l >= 1
    ensures Repeat(x, l) == Repeat(x, l - 1) + [x]
  {
  }

  /** Appending a block of `l` copies of a level that differs from the last
      run's level adds exactly one run. */
  lemma {:induction false} RunsAppendBlock(p: seq<int>, x: int, l: nat)
    requires l >= 1
    requires |Runs(p)| == 0 || Runs(p)[|Runs(p)| - 1].level != x
    ensures Runs(p + Repeat(x, l)) == Runs(p) + [Run(x, l)]
  {
    var pre := p + Repeat(x, l - 1);
    RepeatSnoc(x, l);
    assert p + Repeat(x, l) == pre + [x];
    if l == 1 {
      assert pre == p;
      RunsSnocNew(p, x);
    } else {
      RunsAppendBlock(p, x, l - 1);
      RunsGrowBlock(p, pre, x, l);
    }
  }

  lemma RunsGrowBlock(p: seq<int>, pre: seq<int>, x: int, l: nat)
    requires l >= 2 && Runs(pre) == Runs(p) + [Run(x, l - 1)]
    ensures Runs(pre + [x]) == Runs(p) + [Run(x, l)]
  {
    var rs := Runs(p);
    var rp := Runs(pre);
    assert rp[|rp| - 1] == Run(x, l - 1);
    RunsSnocSame(pre, x);
    assert rp[..|rp| - 1] == rs;
  }

  /** Splitting a sequence into maximal runs is unique: the maximal runs of
      an expansion are the runs it was expanded from. */
  lemma {:induction false} RunsExpand(rs: seq<Run>)
    requires Maximal(rs)
    ensures Runs(Expand(rs)) == rs
  {
    if |rs| > 0 {
      var init := rs[..|rs| - 1];
      var r := rs[|rs| - 1];
      assert rs == init + [r];
      assert Maximal(init);
      RunsExpand(init);
      if |init| > 0 {
        assert init[|init| - 1].level != r.level;
      }
      RunsAppendBlock(Expand(init), r.level, r.length);
    }
  }

  /** The runs the loop emits: all but the final one. */
  function Emitted(q: seq<int>): seq<Run>
  {
    var rs := Runs(q);
    if |rs| == 0 then [] else rs[..|rs| - 1]
  }

  /** The run the loop holds in `last` and `duration` when it ends. */
  function FinalRun(q: seq<int>): Run
    requires |q| > 0
  {
    Runs(q)[|Runs(q)| - 1]
  }

  /** The emitted runs are maximal and the final run, which carries the
      last level, differs from the last one emitted. */
  lemma EmittedMaximal(q: seq<int>)
    requires |q| > 0
    ensures Maximal(Emitted(q))
    ensures |Emitted(q)| > 0 ==> Emitted(q)[|Emitted(q)| - 1].level != FinalRun(q).level
    ensures FinalRun(q).level == q[|q| - 1] && FinalRun(q).length >= 1
  {
    var rs := Runs(q);
    var e := Emitted(q);
    RunsMaximal(q);
    RunsLast(q);
    assert rs == e + [FinalRun(q)];
    assert forall k :: 0 <= k < |e| ==> e[k] == rs[k];
  }

  /** Emitted durations plus the final run's length add up to the length of
      the level sequence. */
  lemma EmittedLength(q: seq<int>)
    requires |q| > 0
    ensures TotalLength(Emitted(q)) + FinalRun(q).length == |q|
  {
    var rs := Runs(q);
    assert rs == Emitted(q) + [FinalRun(q)];
    ExpandRuns(q);
    ExpandLength(rs);
    ExpandSnoc(Emitted(q), FinalRun(q));
  }

  /** The loop emits nothing exactly when the level sequence is constant. */
  lemma {:induction false} EmitsNothingIffConstant(q: seq<int>)
    requires |q| > 0
    ensures Emitted(q) == [] <==> forall i :: 0 <= i < |q| ==> q[i] == q[0]
  {
    RunsMaximal(q);
    RunsFirst(q);
    if Emitted(q) == [] {
      assert Runs(q) == [Run(q[0], Runs(q)[0].length)];
      ExpandRuns(q);
      assert Expand(Runs(q)) == Expand([]) + Repeat(q[0], Runs(q)[0].length);
    }
    if forall i :: 0 <= i < |q| ==> q[i] == q[0] {
      assert q == Expand([Run(q[0], |q|)]) by {
        ExpandSnoc([], Run(q[0], |q|));
      }
      RunsExpand([Run(q[0], |q|)]);
    }
  }

  /** A note as handed to the MIDI writer: its pitch, or `None` when the
      lookup yields `undefined + 60`, and its duration in ticks. */
  datatype NoteEvent = NoteEvent(pitch: Option<int>, duration: nat)

  /** `uniqueBins[level] + 60`: the level is used as an index into the
      first-occurrence table; out of range it is undefined, and the result
      is not clamped to the MIDI range. */
  function NotePitch(table: seq<int>, level: int): (p: Option<int>)
    ensures p.Some? <==> 0 <= level < |table|
  {
    if 0 <= level < |table| then Some(table[level] + 60) else None
  }

  /** The notes the loop hands to the MIDI writer for the level sequence
      `q` and the table `table`, one per emitted run. */
  function EmittedNotes(q: seq<int>, table: seq<int>): (notes: seq<NoteEvent>)
    ensures |notes| == |Emitted(q)|
  {
    NotesOf(Emitted(q), table)
  }

  /** One note per run: the looked-up pitch and the run's length. */
  function NotesOf(rs: seq<Run>, table: seq<int>): (notes: seq<NoteEvent>)
    ensures |notes| == |rs|
  {
    if |rs| == 0 then []
    else
      var r := rs[|rs| - 1];
      NotesOf(rs[..|rs| - 1], table) + [NoteEvent(NotePitch(table, r.level), r.length)]
  }

  lemma NotesOfSnoc(rs: seq<Run>, r: Run, table: seq<int>)
    ensures NotesOf(rs + [r], table) == NotesOf(rs, table) + [NoteEvent(NotePitch(table, r.level), r.length)]
  {
    assert (rs + [r])[..|rs|] == rs;
  }

  /** The k-th note carries the k-th run's looked-up pitch and length. */
  lemma {:induction false} NotesOfIndex(rs: seq<Run>, table: seq<int>, k: nat)
    requires k < |rs|
    ensures NotesOf(rs, table)[k] == NoteEvent(NotePitch(table, rs[k].level), rs[k].length)
  {
    if k < |rs| - 1 {
      NotesOfIndex(rs[..|rs| - 1], table, k);
    }
  }

  /** Note k carries the looked-up pitch and the length of emitted run k. */
  lemma EmittedNotesPointwise(q: seq<int>, table: seq<int>)
    ensures forall k :: 0 <= k < |EmittedNotes(q, table)| ==>
      EmittedNotes(q, table)[k] == NoteEvent(NotePitch(table, Emitted(q)[k].level), Emitted(q)[k].length)
  {
    forall k | 0 <= k < |EmittedNotes(q, table)| {
      NotesOfIndex(Emitted(q), table, k);
    }
  }

  /** The summed duration of a list of notes. */
  function TotalDuration(notes: seq<NoteEvent>): nat
  {
    if |notes| == 0 then 0 else TotalDuration(notes[..|notes| - 1]) + notes[|notes| - 1].duration
  }

  lemma TotalDurationSnoc(notes: seq<NoteEvent>, n: NoteEvent)
    ensures TotalDuration(notes + [n]) == TotalDuration(notes) + n.duration
  {
    assert (notes + [n])[..|notes|] == notes;
  }

  lemma {:induction false} NotesOfDuration(rs: seq<Run>, table: seq<int>)
    ensures TotalDuration(NotesOf(rs, table)) == TotalLength(rs)
  {
    if |rs| > 0 {
      var init := rs[..|rs| - 1];
      var r := rs[|rs| - 1];
      NotesOfDuration(init, table);
      assert rs == init + [r];
      NotesOfSnoc(init, r, table);
      TotalDurationSnoc(NotesOf(init, table), NoteEvent(NotePitch(table, r.level), r.length));
    }
  }

  /** The note loop of lines 75-85. It ends holding the final run in
      `last` and `duration`, which it never emits. */
  method ExtractNotes(q: seq<int>, table: seq<int>) returns (notes: seq<NoteEvent>, last: int, duration: nat)
    requires |q| > 0
    ensures notes == EmittedNotes(q, table)
    ensures Run(last, duration) == FinalRun(q)
    ensures last == q[|q| - 1] && duration >= 1
    ensures TotalDuration(notes) + duration == |q|
  {
    notes := [];
    last := q[0];
    duration := 1;
    ghost var done: seq<Run> := [];
    var i := 1;
    assert q[..1] == [q[0]];
    assert Runs(q[..1]) == [Run(q[0], 1)] by {
      RunsSnocNew([], q[0]);
    }
    while i < |q|
      invariant 1 <= i <= |q|
      invariant Runs(q[..i]) == done + [Run(last, duration)]
      invariant notes == NotesOf(done, table)
      invariant TotalDuration(notes) + duration == i
    {
      if q[i] == last {
        ScanSameLevel(q, i, done, Run(last, duration));
        duration := duration + 1;
      } else {
        ScanNewLevel(q, i, done, Run(last, duration));
        TotalDurationSnoc(notes, NoteEvent(NotePitch(table, last), duration));
        NotesOfSnoc(done, Run(last, duration), table);
        notes := notes + [NoteEvent(NotePitch(table, last), duration)];
        done := done + [Run(last, duration)];
        last := q[i];
        duration := 1;
      }
      i := i + 1;
    }
    assert q[..|q|] == q;
    ScanDone(q, done, Run(last, duration));
  }

  /** A step of the note loop on a level equal to `last`. */
  lemma ScanSameLevel(q: seq<int>, i: nat, done: seq<Run>, cur: Run)
    requires 1 <= i < |q| && Runs(q[..i]) == done + [cur] && q[i] == cur.level
    ensures Runs(q[..i + 1]) == done + [Run(cur.level, cur.length + 1)]
  {
    assert q[..i + 1] == q[..i] + [q[i]];
    RunsSnocSame(q[..i], q[i]);
    assert (done + [cur])[..|done|] == done;
  }

  /** A step of the note loop on a level different from `last`. */
  lemma ScanNewLevel(q: seq<int>, i: nat, done: seq<Run>, cur: Run)
    requires 1 <= i < |q| && Runs(q[..i]) == done + [cur] && q[i] != cur.level
    ensures Runs(q[..i + 1]) == (done + [cur]) + [Run(q[i], 1)]
  {
    assert q[..i + 1] == q[..i] + [q[i]];
    RunsSnocNew(q[..i], q[i]);
  }

  /** When the note loop ends, the runs it emitted are all but the final
      one, and it holds the final one. */
  lemma ScanDone(q: seq<int>, done: seq<Run>, cur: Run)
    requires |q| > 0 && Runs(q) == done + [cur]
    ensures Emitted(q) == done && FinalRun(q) == cur
    ensures cur.level == q[|q| - 1] && cur.length >= 1
  {
    assert (done + [cur])[..|done|] == done;
  }

  /** Neighbouring notes never share a pitch when both are defined: their
      levels differ, and a table without duplicates maps different
      positions to different values. */
  lemma ConsecutivePitchesDiffer(q: seq<int>, table: seq<int>)
    requires |q| > 0 && LevelTable.NoDuplicates(table)
    ensures var notes := EmittedNotes(q, table);
      forall i, j :: 0 <= i < j < |notes| && j == i + 1 && notes[i].pitch.Some? && notes[j].pitch.Some?
        ==> notes[i].pitch.value != notes[j].pitch.value
  {
    var e := Emitted(q);
    var notes := EmittedNotes(q, table);
    EmittedMaximal(q);
    EmittedNotesPointwise(q, table);
    forall i, j | 0 <= i < j < |notes| && j == i + 1 && notes[i].pitch.Some? && notes[j].pitch.Some?
      ensures notes[i].pitch.value != notes[j].pitch.value
    {
      var a, b := e[i].level, e[j].level;
      assert a != b;
      if a < b {
        assert table[a] != table[b];
      } else {
        assert table[b] != table[a];
      }
    }
  }

  /** With levels in `[0, numBins]` and the first-occurrence table, every
      defined note number lies in `[60, 60 + numBins]`; nothing keeps it at
      or below 127. */
  lemma PitchRange(q: seq<int>, numBins: int, level: int)
    requires forall i :: 0 <= i < |q| ==> 0 <= q[i] <= numBins
    ensures var p := NotePitch(LevelTable.FirstOccurrences(q), level);
      p.Some? ==> 60 <= p.value <= 60 + numBins
  {
    var table := LevelTable.FirstOccurrences(q);
    if 0 <= level < |table| {
      assert table[level] in q;
    }
  }

  /** For the levels 1, 70, 0 the loop emits two notes: level 1 looks up
      table position 1, which holds 70, giving note number 130; level 70 is
      past the end of the three-entry table, so its note number is
      undefined; the final run, level 0, is not emitted. */
  lemma LookupQuirksExample()
    ensures EmittedNotes([1, 70, 0], LevelTable.FirstOccurrences([1, 70, 0]))
         == [NoteEvent(Some(130), 1), NoteEvent(None, 1)]
  {
    ExampleRuns();
    ExampleTable();
    var e := Emitted([1, 70, 0]);
    assert e == [Run(1, 1), Run(70, 1)];
    NotesOfSnoc([Run(1, 1)], Run(70, 1), [1, 70, 0]);
    NotesOfSnoc([], Run(1, 1), [1, 70, 0]);
    assert [Run(1, 1)] == [] + [Run(1, 1)];
  }

  lemma ExampleRuns()
    ensures Runs([1, 70, 0]) == [Run(1, 1), Run(70, 1), Run(0, 1)]
  {
    RunsSnocNew([], 1);
    assert [1] == [] + [1];
    RunsSnocNew([1], 70);
    assert [1, 70] == [1] + [70];
    RunsSnocNew([1, 70], 0);
    assert [1, 70, 0] == [1, 70] + [0];
  }

  lemma ExampleTable()
    ensures LevelTable.FirstOccurrences([1, 70, 0]) == [1, 70, 0]
  {
    assert [1, 70, 0][..2] == [1, 70];
    assert [1, 70][..1] == [1];
    assert [1][..0] == [];
  }

  /** The notes handed to the MIDI writer cover fewer frames than the level
      sequence holds, each covers at least one, and with levels in
      `[0, numBins]` every defined note number lies in `[60, 60 + numBins]`. */
  lemma TrackBounds(q: seq<int>, numBins: int)
    requires |q| > 0
    ensures var notes := EmittedNotes(q, LevelTable.FirstOccurrences(q));
      && TotalDuration(notes) < |q|
      && (forall k :: 0 <= k < |notes| ==> notes[k].duration >= 1)
      && ((forall i :: 0 <= i < |q| ==> 0 <= q[i] <= numBins) ==>
            forall k :: 0 <= k < |notes| && notes[k].pitch.Some? ==>
              60 <= notes[k].pitch.value <= 60 + numBins)
  {
    var table := LevelTable.FirstOccurrences(q);
    var notes := EmittedNotes(q, table);
    var e := Emitted(q);
    EmittedMaximal(q);
    EmittedLength(q);
    NotesOfDuration(e, table);
    EmittedNotesPointwise(q, table);
    if forall i :: 0 <= i < |q| ==> 0 <= q[i] <= numBins {
      forall k | 0 <= k < |notes|
        ensures notes[k].pitch.Some? ==> 60 <= notes[k].pitch.value <= 60 + numBins
      {
        PitchRange(q, numBins, e[k].level);
      }
    }
  }

}
