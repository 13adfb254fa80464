/** Crontab editing: `AddCronJob` appends a tagged two-line entry and
    `RemoveCronJob` drops every line containing the tag, together with the
    line after it. The crontab is the text `crontab -l` printed; reading it
    and writing it back are not modelled. */
module Cron {
  import opened Text

  const Tag: string := "# backup-tool:"
  const Newline: char := '\n'

  /** The comment that identifies the entries of job `name`. */
  function Marker(name: string): (m: string)
    ensures |m| > 0
  {
    Tag + name
  }

  /** The scheduled line: cron expression, one space, command. */
  function JobLine(schedule: string, command: string): string
  {
    schedule + " " + command
  }

  /** `AddCronJob`: the current crontab followed by the tagged entry; an
      entry already present for `name` is not replaced. */
  function AddCronJob(crontab: string, name: string, schedule: string, command: string): (r: string)
    ensures |r| > |crontab| && r[..|crontab|] == crontab
    ensures r[|r| - 1] == Newline
  {
    crontab + Marker(name) + [Newline] + JobLine(schedule, command) + [Newline]
  }

  /** The i-th line survives removal: it does not contain the marker and
      does not follow a line that does. */
  predicate Kept(lines: seq<string>, marker: string, i: int)
    requires 0 <= i < |lines|
  {
    !Contains(lines[i], marker) && !(i > 0 && Contains(lines[i - 1], marker))
  }

  /** The surviving lines among the first `k`, in their original order. */
  function KeptUpTo(lines: seq<string>, marker: string, k: nat): (kept: seq<string>)
    requires k <= |lines|
    ensures forall j :: 0 <= j < |kept| ==> kept[j] in lines && !Contains(kept[j], marker)
    decreases k
  {
    if k == 0 then []
    else KeptUpTo(lines, marker, k - 1) + (if Kept(lines, marker, k - 1) then [lines[k - 1]] else [])
  }

  /** The lines of the rewritten crontab: the surviving lines, and an empty
      last line when the original last line was dropped (the code still
      writes the newline after the line before it). */
  function Survivors(lines: seq<string>, marker: string): seq<string>
    requires |lines| >= 1
  {
    var kept := KeptUpTo(lines, marker, |lines|);
    if Kept(lines, marker, |lines| - 1) then kept else kept + [""]
  }

  /** The crontab `RemoveCronJob` writes back, as a reference definition. */
  function Removed(crontab: string, name: string): string
  {
    Join(Survivors(Split(crontab, Newline), Marker(name)), Newline)
  }

  /** Every piece followed by a newline. */
  function Terminated(pieces: seq<string>): string
    decreases |pieces|
  {
    if |pieces| == 0 then ""
    else Terminated(pieces[..|pieces| - 1]) + pieces[|pieces| - 1] + [Newline]
  }

  /** `RemoveCronJob`, as the code does it: split on "\n", skip marked lines
      and the line after each, and append every other line followed by a
      newline unless it was the last line of the input. */
  method RemoveCronJob(crontab: string, name: string) returns (result: string)
    ensures Split(result, Newline) == Survivors(Split(crontab, Newline), Marker(name))
    ensures result == Removed(crontab, name)
  {
    var lines := Split(crontab, Newline);
    var marker := Marker(name);
    var n := |lines|;
    result := [];
    var skip := false;
    var i := 0;
    while i < n
      invariant 0 <= i <= n
      invariant skip == (i > 0 && Contains(lines[i - 1], marker))
      invariant i < n ==> result == Terminated(KeptUpTo(lines, marker, i))
      invariant i == n ==> result == Terminated(KeptUpTo(lines, marker, n - 1)) +
                                     (if Kept(lines, marker, n - 1) then lines[n - 1] else "")
    {
      ghost var kept := KeptUpTo(lines, marker, i);
      if Contains(lines[i], marker) {
        skip := true;
        assert KeptUpTo(lines, marker, i + 1) == kept;
      } else if skip {
        skip := false;
        assert KeptUpTo(lines, marker, i + 1) == kept;
      } else {
        assert KeptUpTo(lines, marker, i + 1) == kept + [lines[i]];
        result := result + lines[i];
        if i != n - 1 {
          result := result + [Newline];
          assert (kept + [lines[i]])[..|kept|] == kept;
          assert Terminated(kept + [lines[i]]) == Terminated(kept) + lines[i] + [Newline];
        }
      }
      i := i + 1;
    }
    RemovedShape(crontab, name);
    SurvivorLines(lines, marker);
    SplitJoin(Survivors(lines, marker), Newline);
  }

  lemma {:induction false} TerminatedJoin(pieces: seq<string>)
    requires |pieces| > 0
    ensures Terminated(pieces) == Join(pieces, Newline) + [Newline]
    decreases |pieces|
  {
    var init := pieces[..|pieces| - 1];
    var last := pieces[|pieces| - 1];
    assert pieces == init + [last];
    JoinSnoc(init, last, Newline);
    if |init| > 0 {
      TerminatedJoin(init);
    }
  }

  /** The reference crontab in the shape the loop builds it. */
  lemma RemovedShape(crontab: string, name: string)
    ensures var lines := Split(crontab, Newline);
            var n := |lines|;
            var marker := Marker(name);
            Removed(crontab, name) ==
              Terminated(KeptUpTo(lines, marker, n - 1)) + (if Kept(lines, marker, n - 1) then lines[n - 1] else "")
  {
    var lines := Split(crontab, Newline);
    var n := |lines|;
    var marker := Marker(name);
    var before := KeptUpTo(lines, marker, n - 1);
    var last := if Kept(lines, marker, n - 1) then lines[n - 1] else "";
    assert Survivors(lines, marker) == before + [last] by {
      assert KeptUpTo(lines, marker, n) == before + (if Kept(lines, marker, n - 1) then [lines[n - 1]] else []);
    }
    assert Join(before + [last], Newline) == Terminated(before) + last by {
      JoinSnoc(before, last, Newline);
      if |before| > 0 {
        TerminatedJoin(before);
      }
    }
  }

  /** The survivors contain no newline and no marker. */
  lemma SurvivorLines(lines: seq<string>, marker: string)
    requires |lines| >= 1 && marker != ""
    requires forall i :: 0 <= i < |lines| ==> Newline !in lines[i]
    ensures var s := Survivors(lines, marker);
            forall j :: 0 <= j < |s| ==> Newline !in s[j] && !Contains(s[j], marker)
  {
    ContainsEmptyString(marker);
  }

  /** With no marked line among the first `k`, all of them survive. */
  lemma {:induction false} KeptUpToUnmarked(lines: seq<string>, marker: string, k: nat)
    requires k <= |lines|
    requires forall i :: 0 <= i < k ==> !Contains(lines[i], marker)
    ensures KeptUpTo(lines, marker, k) == lines[..k]
    decreases k
  {
    if k > 0 {
      KeptUpToUnmarked(lines, marker, k - 1);
      assert lines[..k] == lines[..k - 1] + [lines[k - 1]];
    }
  }

  /** Which of the first `k` lines survive depends on those lines only. */
  lemma {:induction false} KeptUpToPrefix(front: seq<string>, back: seq<string>, marker: string, k: nat)
    requires k <= |front|
    ensures KeptUpTo(front + back, marker, k) == KeptUpTo(front, marker, k)
    decreases k
  {
    if k > 0 {
      KeptUpToPrefix(front, back, marker, k - 1);
    }
  }

  /** A crontab in which no line contains the marker is written back
      exactly: splitting and re-joining is the identity. */
  lemma RemoveUnmarkedIsIdentity(crontab: string, name: string)
    requires forall i :: 0 <= i < |Split(crontab, Newline)| ==> !Contains(Split(crontab, Newline)[i], Marker(name))
    ensures Removed(crontab, name) == crontab
  {
    var lines := Split(crontab, Newline);
    KeptUpToUnmarked(lines, Marker(name), |lines|);
    assert lines[..|lines|] == lines;
    JoinSplit(crontab, Newline);
  }

  /** After removal no line contains the marker, so removing again changes
      nothing. */
  lemma RemoveIdempotent(crontab: string, name: string)
    ensures var lines := Split(Removed(crontab, name), Newline);
            forall i :: 0 <= i < |lines| ==> !Contains(lines[i], Marker(name))
    ensures Removed(Removed(crontab, name), name) == Removed(crontab, name)
  {
    var lines := Split(crontab, Newline);
    SurvivorLines(lines, Marker(name));
    SplitJoin(Survivors(lines, Marker(name)), Newline);
    RemoveUnmarkedIsIdentity(Removed(crontab, name), name);
  }

  /** A crontab that is empty or ends in a newline splits with an empty last
      piece. */
  lemma TerminatedLastLine(crontab: string)
    requires crontab == "" || crontab[|crontab| - 1] == Newline
    ensures var lines := Split(crontab, Newline);
            lines[|lines| - 1] == ""
  {
    if crontab != "" {
      var front := crontab[..|crontab| - 1];
      assert crontab == front + [Newline];
      SplitAppend(front, [Newline], Newline);
      assert [Newline][1..] == "";
      assert Split([Newline], Newline) == [""] + Split("", Newline);
    }
  }

  /** The lines after `AddCronJob`: the tag joins the crontab's last
      (unterminated) piece, then come the job line and an empty piece. */
  lemma AddedLines(crontab: string, name: string, schedule: string, command: string)
    requires Newline !in name && Newline !in schedule && Newline !in command
    ensures var lines := Split(crontab, Newline);
            var n := |lines|;
            Split(AddCronJob(crontab, name, schedule, command), Newline) ==
              lines[..n - 1] + [lines[n - 1] + Marker(name), JobLine(schedule, command), ""]
  {
    var m := Marker(name);
    var job := JobLine(schedule, command);
    NewlineFree(name, schedule, command);
    assert AddCronJob(crontab, name, schedule, command) == crontab + (m + [Newline] + job + [Newline]);
    AppendedEntryLines(crontab, m, job);
  }

  /** The lines of `crontab` followed by a two-line entry. */
  lemma AppendedEntryLines(crontab: string, m: string, job: string)
    requires Newline !in m && Newline !in job
    ensures var lines := Split(crontab, Newline);
            var n := |lines|;
            Split(crontab + (m + [Newline] + job + [Newline]), Newline) ==
              lines[..n - 1] + [lines[n - 1] + m, job, ""]
  {
    EntryLines(m, job);
    SplitAppend(crontab, m + [Newline] + job + [Newline], Newline);
  }

  lemma NewlineFree(name: string, schedule: string, command: string)
    requires Newline !in name && Newline !in schedule && Newline !in command
    ensures Newline !in Marker(name) && Newline !in JobLine(schedule, command)
  {
    assert Newline !in Tag;
  }

  /** The two lines of an entry, and the empty piece after its newline. */
  lemma EntryLines(m: string, job: string)
    requires Newline !in m && Newline !in job
    ensures Split(m + [Newline] + job + [Newline], Newline) == [m, job, ""]
  {
    SplitAfterHead(job, "", Newline);
    assert job + [Newline] + "" == job + [Newline];
    assert Split(job + [Newline], Newline) == [job, ""];
    SplitAfterHead(m, job + [Newline], Newline);
    assert m + [Newline] + job + [Newline] == m + [Newline] + (job + [Newline]);
  }

  /** On a crontab that is empty or ends in a newline, `AddCronJob` appends
      exactly two lines and leaves the crontab newline-terminated. */
  lemma AddToTerminated(crontab: string, name: string, schedule: string, command: string)
    requires crontab == "" || crontab[|crontab| - 1] == Newline
    requires Newline !in name && Newline !in schedule && Newline !in command
    ensures var lines := Split(crontab, Newline);
            Split(AddCronJob(crontab, name, schedule, command), Newline) ==
              lines[..|lines| - 1] + [Marker(name), JobLine(schedule, command), ""]
    ensures var added := AddCronJob(crontab, name, schedule, command);
            added[|added| - 1] == Newline
  {
    var lines := Split(crontab, Newline);
    TerminatedLastLine(crontab);
    AddedLines(crontab, name, schedule, command);
    assert lines[|lines| - 1] + Marker(name) == Marker(name);
  }

  /** Adding the same name twice leaves two tagged entries: an existing
      entry is never replaced. */
  lemma AddTwiceKeepsBoth(crontab: string, name: string, schedule: string, command: string)
    requires crontab == "" || crontab[|crontab| - 1] == Newline
    requires Newline !in name && Newline !in schedule && Newline !in command
    ensures var lines := Split(crontab, Newline);
            var once := AddCronJob(crontab, name, schedule, command);
            Split(AddCronJob(once, name, schedule, command), Newline) ==
              lines[..|lines| - 1] + [Marker(name), JobLine(schedule, command), Marker(name), JobLine(schedule, command), ""]
  {
    var lines := Split(crontab, Newline);
    var front := lines[..|lines| - 1];
    var m := Marker(name);
    var job := JobLine(schedule, command);
    var once := AddCronJob(crontab, name, schedule, command);
    AddToTerminated(crontab, name, schedule, command);
    NewlineFree(name, schedule, command);
    assert AddCronJob(once, name, schedule, command) == once + (m + [Newline] + job + [Newline]);
    EntryAfterEntry(once, front, m, job);
  }

  /** Appending an entry after a crontab that ends with one. */
  lemma EntryAfterEntry(once: string, front: seq<string>, m: string, job: string)
    requires Newline !in m && Newline !in job
    requires Split(once, Newline) == front + [m, job, ""]
    ensures Split(once + (m + [Newline] + job + [Newline]), Newline) == front + [m, job, m, job, ""]
  {
    var lines := front + [m, job, ""];
    AppendedEntryLines(once, m, job);
    assert lines[..|lines| - 1] == front + [m, job];
    assert lines[|lines| - 1] + m == m;
  }

  /** Adding an entry and then removing with a marker it contains drops the
      entry, and with it the crontab's unterminated last piece, which the
      tag was glued onto. Every earlier line is kept. */
  lemma AddThenRemoveGeneral(crontab: string, name: string, schedule: string, command: string, removed: string)
    requires Newline !in name && Newline !in schedule && Newline !in command
    requires Contains(Marker(name), Marker(removed)) || Contains(Split(crontab, Newline)[|Split(crontab, Newline)| - 1], Marker(removed))
    requires var lines := Split(crontab, Newline);
             forall i :: 0 <= i < |lines| - 1 ==> !Contains(lines[i], Marker(removed))
    ensures var lines := Split(crontab, Newline);
            Removed(AddCronJob(crontab, name, schedule, command), removed) == Join(lines[..|lines| - 1] + [""], Newline)
  {
    var lines := Split(crontab, Newline);
    var n := |lines|;
    var m := Marker(removed);
    var tagLine := lines[n - 1] + Marker(name);
    AddedLines(crontab, name, schedule, command);
    ContainsAppendEither(lines[n - 1], Marker(name), m);
    RemovedEntry(AddCronJob(crontab, name, schedule, command), removed, lines[..n - 1], tagLine, JobLine(schedule, command));
  }

  /** Removal from a crontab whose lines are unmarked lines followed by a
      tagged entry keeps just those lines. */
  lemma RemovedEntry(t: string, removed: string, front: seq<string>, tagLine: string, job: string)
    requires Split(t, Newline) == front + [tagLine, job, ""]
    requires Contains(tagLine, Marker(removed))
    requires forall i :: 0 <= i < |front| ==> !Contains(front[i], Marker(removed))
    ensures Removed(t, removed) == Join(front + [""], Newline)
  {
    EntrySurvivors(front, tagLine, job, Marker(removed));
  }

  /** Of a tagged entry appended after unmarked lines, only those lines and
      the empty piece after the entry's newline survive. */
  lemma EntrySurvivors(front: seq<string>, tagLine: string, job: string, m: string)
    requires m != "" && Contains(tagLine, m)
    requires forall i :: 0 <= i < |front| ==> !Contains(front[i], m)
    ensures Survivors(front + [tagLine, job, ""], m) == front + [""]
  {
    var n := |front| + 1;
    var added := front + [tagLine, job, ""];
    KeptUpToPrefix(front, [tagLine, job, ""], m, n - 1);
    KeptUpToUnmarked(front, m, n - 1);
    assert front[..n - 1] == front;
    assert !Kept(added, m, n - 1);
    assert !Kept(added, m, n);
    assert KeptUpTo(added, m, n + 1) == front;
    ContainsEmptyString(m);
  }

  /** A string contains whatever either of its two parts contains. */
  lemma {:induction false} ContainsAppendEither(a: string, b: string, sub: string)
    requires Contains(a, sub) || Contains(b, sub)
    ensures Contains(a + b, sub)
    decreases |a|
  {
    if Contains(b, sub) && |a| > 0 {
      assert (a + b)[1..] == a[1..] + b;
      ContainsAppendEither(a[1..], b, sub);
    } else if Contains(b, sub) {
      assert a + b == b;
    } else if HasPrefix(a, sub) {
      assert (a + b)[..|sub|] == a[..|sub|];
    } else {
      assert (a + b)[1..] == a[1..] + b;
      ContainsAppendEither(a[1..], b, sub);
    }
  }

  /** Add followed by remove of the same name restores a crontab that is
      empty or newline-terminated and has no line tagged for that name.
      Because matching is by substring, removing a name that the added name
      starts with ("ord" for "orders") does the same. */
  lemma AddThenRemoveRestores(crontab: string, name: string, schedule: string, command: string, removed: string)
    requires crontab == "" || crontab[|crontab| - 1] == Newline
    requires Newline !in name && Newline !in schedule && Newline !in command
    requires HasPrefix(name, removed)
    requires var lines := Split(crontab, Newline);
             forall i :: 0 <= i < |lines| ==> !Contains(lines[i], Marker(removed))
    ensures Removed(AddCronJob(crontab, name, schedule, command), removed) == crontab
  {
    var lines := Split(crontab, Newline);
    var n := |lines|;
    assert HasPrefix(Marker(name), Marker(removed)) by {
      assert Marker(name)[..|Marker(removed)|] == Tag + name[..|removed|];
    }
    PrefixContained(Marker(name), Marker(removed));
    AddThenRemoveGeneral(crontab, name, schedule, command, removed);
    TerminatedLastLine(crontab);
    assert lines[..n - 1] + [""] == lines;
    JoinSplit(crontab, Newline);
  }

  /** Removing by a prefix of a job name removes that job's entry. */
  lemma RemoveMatchesBySubstring(crontab: string, schedule: string, command: string)
    requires crontab == "" || crontab[|crontab| - 1] == Newline
    requires Newline !in schedule && Newline !in command
    requires var lines := Split(crontab, Newline);
             forall i :: 0 <= i < |lines| ==> !Contains(lines[i], Marker("ord"))
    ensures Removed(AddCronJob(crontab, "orders", schedule, command), "ord") == crontab
  {
    AddThenRemoveRestores(crontab, "orders", schedule, command, "ord");
  }

  /** When the crontab's last line has no newline, the tag is glued onto it
      and removing the entry loses that line as well. */
  lemma AddThenRemoveLosesUnterminatedLine(crontab: string, name: string, schedule: string, command: string)
    requires crontab != "" && crontab[|crontab| - 1] != Newline
    requires Newline !in name && Newline !in schedule && Newline !in command
    requires var lines := Split(crontab, Newline);
             forall i :: 0 <= i < |lines| ==> !Contains(lines[i], Marker(name))
    ensures var lines := Split(crontab, Newline);
            var lost := lines[|lines| - 1];
            lost != "" && Removed(AddCronJob(crontab, name, schedule, command), name) + lost == crontab
  {
    var lines := Split(crontab, Newline);
    var n := |lines|;
    var front, lost := lines[..n - 1], lines[n - 1];
    var added := AddCronJob(crontab, name, schedule, command);
    assert Removed(added, name) == Join(front + [""], Newline) by {
      PrefixContained(Marker(name), Marker(name));
      AddThenRemoveGeneral(crontab, name, schedule, command, name);
    }
    assert Join(front + [""], Newline) + lost == crontab by {
      JoinEmptyLast(front, lost, Newline);
      assert front + [lost] == lines;
      JoinSplit(crontab, Newline);
    }
    UnterminatedLastLine(crontab);
  }

  /** A crontab that does not end in a newline splits with a non-empty last
      piece. */
  lemma UnterminatedLastLine(crontab: string)
    requires crontab != "" && crontab[|crontab| - 1] != Newline
    ensures var lines := Split(crontab, Newline);
            lines[|lines| - 1] != ""
  {
    var init := crontab[..|crontab| - 1];
    var last := [crontab[|crontab| - 1]];
    assert crontab == init + last;
    SplitAppend(init, last, Newline);
    SplitNoSeparator(last, Newline);
  }
}
