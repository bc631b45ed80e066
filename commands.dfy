// The text handling around the git commands: the `git status --porcelain`
// parser, the pending squash target, push error classification, the summary
// of "fetch and sync all branches" and the sequence-editor script of a
// squash. Running git itself is not part of this model: process outputs are
// inputs.

module Commands {
  import opened Util
  import opened Types
  import Dialogs

  // ---------------------------------------------------------------------
  // Byte offsets in strings

  /** The character index at which `n` bytes of `s` end: Rust's slicing of
      a `str` at byte offset `n`, which panics (None) when `n` is past the
      end or inside a character. */
  function CharIndexAtByte(s: string, n: nat): (r: Option<nat>)
    ensures r.Some? ==> r.value <= |s| && ByteLen(s[..r.value]) == n
    decreases |s|
  {
    if n == 0 then Some(0)
    else if s == [] || Utf8Width(s[0]) > n then None
    else match CharIndexAtByte(s[1..], n - Utf8Width(s[0]))
      case None => None
      case Some(k) =>
        assert s[..k + 1][1..] == s[1..][..k];
        Some(k + 1)
  }

  /** Where every character is ASCII, byte offsets are character indices. */
  lemma {:induction false} AsciiByteIndex(s: string, n: nat)
    requires n <= |s| && forall i :: 0 <= i < n ==> s[i] as int < 0x80
    ensures CharIndexAtByte(s, n) == Some(n)
  {
    if n > 0 {
      AsciiByteIndex(s[1..], n - 1);
    }
  }

  /** A byte offset beyond the string has no character index. */
  lemma ByteIndexPastEnd(s: string, n: nat)
    requires ByteLen(s) < n
    ensures CharIndexAtByte(s, n).None?
  {
    match CharIndexAtByte(s, n)
    case None =>
    case Some(k) =>
      assert s == s[..k] + s[k..];
      ByteLenAppend(s[..k], s[k..]);
  }

  // ---------------------------------------------------------------------
  // `git status --porcelain` (`load_git_status`)

  /** The status of a two-character porcelain code. */
  function StatusOfCode(code: string): (s: FileStatus)
    ensures s == Staged <==> code == "A " || code == "M " || code == "D "
    ensures s == Untracked <==> code == "??"
    ensures s == Deleted <==> code == " D"
    ensures s == Modified <==> code != "A " && code != "M " && code != "D " && code != "??" && code != " D"
  {
    if code == "A " || code == "M " || code == "D " then Staged
    else if code == " M" || code == "MM" then Modified
    else if code == "??" then Untracked
    else if code == " D" then Deleted
    else Modified
  }

  /** One line of porcelain output: the code is its first two bytes, the path
      everything from byte 3. None where the source's slicing panics. */
  function ParseStatusLine(line: string): Option<StatusFile> {
    match CharIndexAtByte(line, 2)
    case None => None
    case Some(i) =>
      match CharIndexAtByte(line, 3)
      case None => None
      case Some(j) => Some(StatusFile(line[j..], StatusOfCode(line[..i])))
  }

  /** An ASCII code and separator give back the path and the code's status. */
  lemma ParseStatusLineOf(x: char, y: char, sep: char, path: string)
    requires x as int < 0x80 && y as int < 0x80 && sep as int < 0x80
    ensures ParseStatusLine([x, y, sep] + path) == Some(StatusFile(path, StatusOfCode([x, y])))
  {
    var line := [x, y, sep] + path;
    AsciiByteIndex(line, 2);
    AsciiByteIndex(line, 3);
    assert line[..2] == [x, y];
    assert line[3..] == path;
  }

  /** A line shorter than 3 bytes makes the source panic. */
  lemma ShortStatusLinePanics(line: string)
    requires ByteLen(line) < 3
    ensures ParseStatusLine(line).None?
  {
    ByteIndexPastEnd(line, 3);
  }

  /** The non-empty lines, in order. */
  function NonEmptyLines(lines: seq<string>): (r: seq<string>)
    ensures |r| <= |lines|
    ensures forall k :: 0 <= k < |r| ==> r[k] != [] && r[k] in lines
    ensures forall k :: 0 <= k < |lines| && lines[k] != [] ==> lines[k] in r
  {
    if lines == [] then []
    else if lines[0] == [] then NonEmptyLines(lines[1..])
    else [lines[0]] + NonEmptyLines(lines[1..])
  }

  /** The filter keeps order and multiplicity: the filter of joined lists
      is the join of their filters. */
  lemma {:induction false} NonEmptyLinesAppend(a: seq<string>, b: seq<string>)
    ensures NonEmptyLines(a + b) == NonEmptyLines(a) + NonEmptyLines(b)
    decreases |a|
  {
    if a == [] {
      assert a + b == b;
    } else {
      assert (a + b)[0] == a[0];
      assert (a + b)[1..] == a[1..] + b;
      NonEmptyLinesAppend(a[1..], b);
    }
  }

  /** A single line is kept exactly when it is not empty. */
  lemma NonEmptyLinesOne(l: string)
    ensures NonEmptyLines([l]) == if l == [] then [] else [l]
  {
    assert [l][1..] == [];
  }

  /** Every line parsed, or None as soon as one of them panics. */
  function ParseStatusLines(lines: seq<string>): (r: Option<seq<StatusFile>>)
    ensures r.Some? <==> forall k :: 0 <= k < |lines| ==> ParseStatusLine(lines[k]).Some?
    ensures r.Some? ==> (|r.value| == |lines|
      && forall k :: 0 <= k < |lines| ==> Some(r.value[k]) == ParseStatusLine(lines[k]))
  {
    if lines == [] then Some([])
    else match ParseStatusLine(lines[0])
      case None => None
      case Some(f) =>
        match ParseStatusLines(lines[1..])
        case None => None
        case Some(rest) => Some([f] + rest)
  }

  /** `load_git_status`: the file list after `git status --porcelain`
      answered `output` (None when it could not be started). A failed run
      keeps the previous list; None is a panic on a short line. */
  function StatusFilesAfter(current: seq<StatusFile>, output: Option<ProcessOutput>): (r: Option<seq<StatusFile>>)
    ensures output.None? || !output.value.success ==> r == Some(current)
    ensures output.Some? && output.value.success ==>
      r == ParseStatusLines(NonEmptyLines(Lines(output.value.stdout)))
  {
    if output.Some? && output.value.success
    then ParseStatusLines(NonEmptyLines(Lines(output.value.stdout)))
    else Some(current)
  }

  // ---------------------------------------------------------------------
  // The pending squash target (`confirm_command`)

  /** Rust's `str::split` with a character pattern. */
  function Split(s: string, sep: char): (parts: seq<string>)
    ensures |parts| >= 1
    ensures forall k :: 0 <= k < |parts| ==> sep !in parts[k]
    decreases |s|
  {
    match IndexOf(s, sep)
    case None => [s]
    case Some(k) => [s[..k]] + Split(s[k + 1..], sep)
  }

  /** The pieces glued together with the separator. */
  function Join(parts: seq<string>, sep: char): string
    requires |parts| >= 1
  {
    if |parts| == 1 then parts[0] else parts[0] + [sep] + Join(parts[1..], sep)
  }

  /** Splitting loses nothing: joining the pieces gives the string back. */
  lemma {:induction false} SplitJoin(s: string, sep: char)
    ensures Join(Split(s, sep), sep) == s
    decreases |s|
  {
    match IndexOf(s, sep)
    case None =>
    case Some(k) =>
      var parts := [s[..k]] + Split(s[k + 1..], sep);
      assert Split(s, sep) == parts && |parts| >= 2 && parts[1..] == Split(s[k + 1..], sep);
      SplitJoin(s[k + 1..], sep);
      assert s == s[..k] + [sep] + s[k + 1..];
  }

  /** Two separator-free pieces joined by the separator split back apart. */
  lemma SplitTwo(a: string, b: string, sep: char)
    requires sep !in a && sep !in b
    ensures Split(a + [sep] + b, sep) == [a, b]
  {
    var s := a + [sep] + b;
    assert s[|a|] == sep;
    match IndexOf(s, sep)
    case None =>
    case Some(k) =>
      assert s[..k] == a;
      assert s[k + 1..] == b;
      assert IndexOf(b, sep).None?;
  }

  /** The commit id and count of a pending squash "id:count": exactly one
      ':' and a count that parses as a `usize`. */
  function ParseSquashTarget(info: string): (r: Option<(string, nat)>)
    ensures r.Some? ==> ':' !in r.value.0 && r.value.1 <= UsizeMax
    ensures r.Some? ==> (StartsWith(info, r.value.0 + ":")
      && ParseUsize(info[|r.value.0| + 1..]) == Some(r.value.1))
  {
    var parts := Split(info, ':');
    if |parts| == 2 then
      match ParseUsize(parts[1])
      case None => None
      case Some(n) =>
        SplitJoin(info, ':');
        assert info == parts[0] + ":" + parts[1];
        Some((parts[0], n))
    else None
  }

  /** The target the squash dialog records is read back unchanged. */
  lemma SquashTargetRoundTrip(id: string, count: nat)
    requires ':' !in id && count <= UsizeMax
    ensures ParseSquashTarget(Dialogs.SquashTarget(id, count)) == Some((id, count))
  {
    var digits := NatToString(count);
    assert ':' !in digits;
    assert Dialogs.SquashTarget(id, count) == id + [':'] + digits;
    SplitTwo(id, digits, ':');
    ParseUsizeRoundTrip(count);
  }

  /** A second ':' makes the target unreadable. */
  lemma SquashTargetWithTwoColons(a: string, b: string, c: string)
    requires ':' !in a && ':' !in b && ':' !in c
    ensures ParseSquashTarget(a + ":" + b + ":" + c).None?
  {
    var s := a + ":" + b + ":" + c;
    SplitTwo(b, c, ':');
    assert s == a + [':'] + (b + [':'] + c);
    var rest := b + [':'] + c;
    assert s[|a|] == ':';
    match IndexOf(s, ':')
    case None =>
    case Some(k) =>
      assert s[k + 1..] == rest;
  }

  // ---------------------------------------------------------------------
  // Push errors (`cmd_push`)

  /** The kinds of push failure told apart. */
  datatype PushFailure = FetchFirst | NonFastForward | NoUpstream | AuthenticationFailed | Unrecognised(detail: string)

  /** The failure read from the standard error of `git push`, testing in
      order: new commits on the remote, a non-fast-forward update, a missing
      upstream, failed credentials. */
  function ClassifyPushError(stderr: string): PushFailure {
    if Contains(stderr, "rejected") && Contains(stderr, "fetch first") then FetchFirst
    else if Contains(stderr, "non-fast-forward") then NonFastForward
    else if Contains(stderr, "no upstream branch") || Contains(stderr, "has no upstream") then NoUpstream
    else if Contains(stderr, "Authentication failed") || Contains(stderr, "Could not read from remote") then
      AuthenticationFailed
    else Unrecognised(Trim(stderr))
  }

  /** Precedence: new commits on the remote win over every later test, a
      non-fast-forward update over the upstream and credential tests, and
      an error matching none of them is passed on trimmed. */
  lemma PushErrorPrecedence(stderr: string)
    ensures Contains(stderr, "rejected") && Contains(stderr, "fetch first") ==> ClassifyPushError(stderr) == FetchFirst
    ensures ClassifyPushError(stderr) == NonFastForward <==>
      !(Contains(stderr, "rejected") && Contains(stderr, "fetch first")) && Contains(stderr, "non-fast-forward")
    ensures ClassifyPushError(stderr).Unrecognised? <==>
      && !(Contains(stderr, "rejected") && Contains(stderr, "fetch first"))
      && !Contains(stderr, "non-fast-forward")
      && !Contains(stderr, "no upstream branch") && !Contains(stderr, "has no upstream")
      && !Contains(stderr, "Authentication failed") && !Contains(stderr, "Could not read from remote")
    ensures ClassifyPushError(stderr).Unrecognised? ==> ClassifyPushError(stderr).detail == Trim(stderr)
  {
  }

  const RejectedPrefix := "Push rejected: "
  const FailedPrefix := "Push failed: "

  /** The advice shown after the prefix. */
  function PushAdvice(f: PushFailure): string {
    match f
    case FetchFirst => "Remote has changes you don't have locally. Use 'pull' or 'fetch and sync all branches' first."
    case NonFastForward => "Non-fast-forward update. Pull changes first or use force push (dangerous)."
    case NoUpstream => "No upstream branch set. Use 'git push -u origin <branch>' from terminal."
    case AuthenticationFailed => "Authentication error. Check your credentials or SSH keys."
    case Unrecognised(detail) => detail
  }

  /** The error text for a failure. */
  function PushFailureMessage(f: PushFailure): string {
    if f.FetchFirst? || f.NonFastForward? then RejectedPrefix + PushAdvice(f) else FailedPrefix + PushAdvice(f)
  }

  /** A string starting with `p` does not start with a `q` that differs
      from `p` at position `i`. */
  lemma PrefixesDiffer(p: string, q: string, x: string, i: nat)
    requires i < |p| && i < |q| && p[i] != q[i]
    ensures StartsWith(p + x, p) && !StartsWith(p + x, q)
  {
    assert (p + x)[..|p|] == p;
    assert (p + x)[i] == p[i];
  }

  /** The two prefixes tell rejections from other failures. */
  lemma PushMessageKinds(f: PushFailure)
    ensures StartsWith(PushFailureMessage(f), RejectedPrefix) <==> f.FetchFirst? || f.NonFastForward?
    ensures StartsWith(PushFailureMessage(f), FailedPrefix) <==> !(f.FetchFirst? || f.NonFastForward?)
  {
    assert RejectedPrefix[5] == 'r' && FailedPrefix[5] == 'f';
    if f.FetchFirst? || f.NonFastForward? {
      PrefixesDiffer(RejectedPrefix, FailedPrefix, PushAdvice(f), 5);
    } else {
      PrefixesDiffer(FailedPrefix, RejectedPrefix, PushAdvice(f), 5);
    }
  }

  /** Starting `git`: its output, or the error the operating system gave
      when the process could not be started. */
  datatype Run = Ran(output: ProcessOutput) | NotStarted(reason: string)

  const ExecFailedPrefix := "Failed to execute git: "

  /** `cmd_push` after starting `git push` gave `run`. */
  function PushOutcome(run: Run): (r: Dialogs.Outcome)
    ensures r.Done? <==> run.Ran? && run.output.success
    ensures run.NotStarted? ==> r == Dialogs.Failed(ExecFailedPrefix + run.reason)
    ensures run.Ran? && r.Failed? ==> r.error == PushFailureMessage(ClassifyPushError(run.output.stderr))
  {
    match run
    case NotStarted(reason) => Dialogs.Failed(ExecFailedPrefix + reason)
    case Ran(output) =>
      if output.success then Dialogs.Done("Pushed to remote")
      else Dialogs.Failed(PushFailureMessage(ClassifyPushError(output.stderr)))
  }

  /** A failed push's error tells its cause: `git` not started, the push
      rejected, or the push failed otherwise. */
  lemma PushOutcomeKinds(run: Run)
    ensures var r := PushOutcome(run);
      r.Failed? ==>
        && (StartsWith(r.error, ExecFailedPrefix) <==> run.NotStarted?)
        && (StartsWith(r.error, RejectedPrefix) <==>
              run.Ran? && ClassifyPushError(run.output.stderr) in {FetchFirst, NonFastForward})
  {
    var r := PushOutcome(run);
    assert ExecFailedPrefix[0] == 'F' && RejectedPrefix[0] == 'P' && FailedPrefix[0] == 'P';
    match run
    case NotStarted(reason) =>
      PrefixesDiffer(ExecFailedPrefix, RejectedPrefix, reason, 0);
    case Ran(output) =>
      if !output.success {
        var f := ClassifyPushError(output.stderr);
        PushMessageKinds(f);
        if f.FetchFirst? || f.NonFastForward? {
          PrefixesDiffer(RejectedPrefix, ExecFailedPrefix, PushAdvice(f), 0);
        } else {
          PrefixesDiffer(FailedPrefix, ExecFailedPrefix, PushAdvice(f), 0);
        }
      }
  }

  // ---------------------------------------------------------------------
  // Fetch and sync all branches (`cmd_pull_all`)

  const OriginPrefix := "origin/"

  /** What happened to one remote-tracking branch. */
  datatype FetchClass = NotOrigin | Created | Updated | LocalChanges | Failure | Quiet

  /** The class of `remote` after its fetch answered `fetch` (None when git
      could not be started): failures mentioning a non-fast-forward or a
      clobbered ref are local changes; a failure with blank standard error
      is counted nowhere. */
  function ClassOf(remote: string, local: seq<string>, fetch: Option<ProcessOutput>): FetchClass {
    if !StartsWith(remote, OriginPrefix) then NotOrigin
    else match fetch
      case None => Failure
      case Some(o) =>
        if o.success then (if remote[|OriginPrefix|..] in local then Updated else Created)
        else if Contains(o.stderr, "non-fast-forward") || Contains(o.stderr, "would clobber") then LocalChanges
        else if Trim(o.stderr) != [] then Failure
        else Quiet
  }

  /** The class of each remote branch. */
  function Classes(remotes: seq<string>, local: seq<string>, fetches: seq<Option<ProcessOutput>>): (cs: seq<FetchClass>)
    requires |fetches| == |remotes|
    ensures |cs| == |remotes|
    ensures forall k :: 0 <= k < |cs| ==> cs[k] == ClassOf(remotes[k], local, fetches[k])
  {
    seq(|remotes|, k requires 0 <= k < |remotes| => ClassOf(remotes[k], local, fetches[k]))
  }

  /** How many entries of `cs` are `c`. */
  function Tally(cs: seq<FetchClass>, c: FetchClass): (n: nat)
    ensures n <= |cs|
  {
    if cs == [] then 0 else Tally(cs[..|cs| - 1], c) + (if cs[|cs| - 1] == c then 1 else 0)
  }

  /** A counter is 0 exactly when no branch has its class, and counts every
      branch exactly when all of them have it. */
  lemma {:induction false} TallyExtremes(cs: seq<FetchClass>, c: FetchClass)
    ensures Tally(cs, c) == 0 <==> c !in cs
    ensures Tally(cs, c) == |cs| <==> forall k :: 0 <= k < |cs| ==> cs[k] == c
  {
    if cs != [] {
      var n := |cs| - 1;
      TallyExtremes(cs[..n], c);
      assert cs == cs[..n] + [cs[n]];
    }
  }

  /** Every remote branch falls in exactly one class. */
  lemma {:induction false} TallyPartition(cs: seq<FetchClass>)
    ensures Tally(cs, NotOrigin) + Tally(cs, Created) + Tally(cs, Updated) + Tally(cs, LocalChanges)
      + Tally(cs, Failure) + Tally(cs, Quiet) == |cs|
  {
    if cs != [] {
      TallyPartition(cs[..|cs| - 1]);
    }
  }

  /** Counting one more entry adds one to that entry's class only. */
  lemma TallyStep(cs: seq<FetchClass>, i: nat)
    requires i < |cs|
    ensures forall c :: Tally(cs[..i + 1], c) == Tally(cs[..i], c) + (if cs[i] == c then 1 else 0)
  {
    assert cs[..i + 1][..i] == cs[..i];
  }

  /** A branch is skipped exactly when it is not a branch of `origin`,
      whatever its fetch did. */
  lemma NotOriginIffSkipped(remote: string, local: seq<string>, fetch: Option<ProcessOutput>)
    ensures ClassOf(remote, local, fetch) == NotOrigin <==> !StartsWith(remote, OriginPrefix)
  {
  }

  /** The number of branches in `remotes` outside `origin`. */
  function OutsideOrigin(remotes: seq<string>): (n: nat)
    ensures n <= |remotes|
  {
    if remotes == [] then 0
    else OutsideOrigin(remotes[..|remotes| - 1]) + (if StartsWith(remotes[|remotes| - 1], OriginPrefix) then 0 else 1)
  }

  /** Only branches of `origin` are fetched: in any list, mixed or not, the
      skipped count is the number of branches outside `origin`, so the five
      fetch outcomes share the rest. */
  lemma OnlyOriginCounted(remotes: seq<string>, local: seq<string>, fetches: seq<Option<ProcessOutput>>)
    requires |fetches| == |remotes|
    ensures Tally(Classes(remotes, local, fetches), NotOrigin) == OutsideOrigin(remotes)
    ensures var cs := Classes(remotes, local, fetches);
      Tally(cs, Created) + Tally(cs, Updated) + Tally(cs, LocalChanges) + Tally(cs, Failure) + Tally(cs, Quiet)
        == |remotes| - OutsideOrigin(remotes)
  {
    SkippedCount(remotes, local, fetches);
    TallyPartition(Classes(remotes, local, fetches));
  }

  /** The skipped count, by induction on the list of branches. */
  lemma {:induction false} SkippedCount(remotes: seq<string>, local: seq<string>, fetches: seq<Option<ProcessOutput>>)
    requires |fetches| == |remotes|
    ensures Tally(Classes(remotes, local, fetches), NotOrigin) == OutsideOrigin(remotes)
    decreases |remotes|
  {
    if remotes != [] {
      var n := |remotes| - 1;
      var cs := Classes(remotes, local, fetches);
      SkippedCount(remotes[..n], local, fetches[..n]);
      assert cs[..n] == Classes(remotes[..n], local, fetches[..n]);
      NotOriginIffSkipped(remotes[n], local, fetches[n]);
      TallyStep(cs, n);
      assert cs[..n + 1] == cs;
    }
  }

  /** A note counting `n` branches: nothing when there are none, else the
      count between `lead` and a closing `tail`. */
  function CountNote(n: nat, lead: string, tail: string): (r: string)
    requires tail != [] && tail[|tail| - 1] == ')'
    ensures (r == []) == (n == 0) && (r == [] || r[|r| - 1] == ')')
  {
    if n > 0 then lead + NatToString(n) + tail else ""
  }

  function CreatedNote(created: nat): string {
    CountNote(created, " (created ", " new)")
  }

  function SkippedNote(skipped: nat): string {
    CountNote(skipped, ", skipped ", " (local changes)")
  }

  function ErrorsNote(errors: nat): (r: string)
    ensures (r == []) == (errors == 0)
    ensures errors > 0 ==> EndsWith(r, " errors")
  {
    if errors > 0 then
      var r := ", " + NatToString(errors) + " errors";
      assert r[|r| - 7..] == " errors";
      r
    else ""
  }

  /** The summary the sync reports. */
  function PullSummary(created: nat, updated: nat, skipped: nat, errors: nat): string {
    SummaryHead(created + updated) + (CreatedNote(created) + SkippedNote(skipped)) + ErrorsNote(errors)
  }

  function SummaryHead(total: nat): string {
    "Updated " + NatToString(total) + " branches"
  }

  predicate EndsWith(s: string, suffix: string) {
    |suffix| <= |s| && s[|s| - |suffix|..] == suffix
  }

  /** A summary without an error note does not end in " errors": it ends in
      ')' or in " branches". */
  lemma NoErrorsEnding(head: string, count: string, notes: string)
    requires head == "Updated " + count + " branches"
    requires notes == [] || notes[|notes| - 1] == ')'
    ensures !EndsWith(head + notes, " errors")
  {
    var m := head + notes;
    assert |m| >= 9;
    if notes == [] {
      assert m == head;
      assert m[|m| - 7..][0] == 'r';
    } else {
      assert m[|m| - 7..][6] == notes[|notes| - 1] == ')';
    }
  }

  /** The summary opens with the number of created plus updated branches, and
      ends by counting errors exactly when there were some. */
  lemma PullSummaryShape(created: nat, updated: nat, skipped: nat, errors: nat)
    ensures StartsWith(PullSummary(created, updated, skipped, errors), "Updated " + NatToString(created + updated) + " branches")
    ensures EndsWith(PullSummary(created, updated, skipped, errors), " errors") <==> errors > 0
  {
    var count := NatToString(created + updated);
    var head := SummaryHead(created + updated);
    var notes := CreatedNote(created) + SkippedNote(skipped);
    var errorsNote := ErrorsNote(errors);
    assert (head + notes + errorsNote)[..|head|] == head;
    if errors == 0 {
      assert PullSummary(created, updated, skipped, errors) == head + notes;
      NoErrorsEnding(head, count, notes);
    } else {
      var m := head + notes + errorsNote;
      assert m[|m| - 7..] == errorsNote[|errorsNote| - 7..];
    }
  }

  /** The counters after one remote branch: the one its class names goes up
      by one. */
  method CountFetch(remote: string, local: seq<string>, fetch: Option<ProcessOutput>,
                    created: nat, updated: nat, skipped: nat, errors: nat)
    returns (created': nat, updated': nat, skipped': nat, errors': nat)
    ensures created' == created + (if ClassOf(remote, local, fetch) == Created then 1 else 0)
    ensures updated' == updated + (if ClassOf(remote, local, fetch) == Updated then 1 else 0)
    ensures skipped' == skipped + (if ClassOf(remote, local, fetch) == LocalChanges then 1 else 0)
    ensures errors' == errors + (if ClassOf(remote, local, fetch) == Failure then 1 else 0)
  {
    created', updated', skipped', errors' := created, updated, skipped, errors;
    if !StartsWith(remote, OriginPrefix) {
      return;
    }
    var branchName := remote[|OriginPrefix|..];
    var isNew := branchName !in local;
    match fetch {
      case None =>
        errors' := errors + 1;
      case Some(output) =>
        if output.success {
          if isNew {
            created' := created + 1;
          } else {
            updated' := updated + 1;
          }
        } else if Contains(output.stderr, "non-fast-forward") || Contains(output.stderr, "would clobber") {
          skipped' := skipped + 1;
        } else if Trim(output.stderr) != [] {
          errors' := errors + 1;
        }
    }
  }

  /** `cmd_pull_all` from the listed remote and local branches on: each
      branch of `origin` is fetched (`fetches[k]` is how the fetch of
      `remotes[k]` ended) and counted; the summary reports the counts. */
  method PullAll(remotes: seq<string>, local: seq<string>, fetches: seq<Option<ProcessOutput>>)
    returns (created: nat, updated: nat, skipped: nat, errors: nat, message: string)
    requires |fetches| == |remotes|
    ensures created == Tally(Classes(remotes, local, fetches), Created)
    ensures updated == Tally(Classes(remotes, local, fetches), Updated)
    ensures skipped == Tally(Classes(remotes, local, fetches), LocalChanges)
    ensures errors == Tally(Classes(remotes, local, fetches), Failure)
    ensures message == PullSummary(created, updated, skipped, errors)
  {
    ghost var cs := Classes(remotes, local, fetches);
    created, updated, skipped, errors := 0, 0, 0, 0;
    for i := 0 to |remotes|
      invariant created == Tally(cs[..i], Created) && updated == Tally(cs[..i], Updated)
      invariant skipped == Tally(cs[..i], LocalChanges) && errors == Tally(cs[..i], Failure)
    {
      TallyStep(cs, i);
      created, updated, skipped, errors := CountFetch(remotes[i], local, fetches[i], created, updated, skipped, errors);
    }
    assert cs[..|remotes|] == cs;
    message := BuildPullSummary(created, updated, skipped, errors);
  }

  /** The summary message, built in the source's steps: the head (with
      the created note when some branch was created), then the skipped
      note, then the errors note, each only when its count is positive. */
  method BuildPullSummary(created: nat, updated: nat, skipped: nat, errors: nat) returns (message: string)
    ensures message == PullSummary(created, updated, skipped, errors)
  {
    var head := SummaryHead(created + updated);
    message := head;
    if created > 0 {
      message := message + CreatedNote(created);
    }
    if skipped > 0 {
      message := message + SkippedNote(skipped);
    }
    assert message == head + (CreatedNote(created) + SkippedNote(skipped));
    if errors > 0 {
      message := message + ErrorsNote(errors);
    }
  }

  // ---------------------------------------------------------------------
  // The squash script (`execute_squash_commits`)

  /** A full commit hash as `git log --format=%H` prints it: its first seven
      characters are ASCII, so the 7-byte prefix is a 7-character prefix. */
  predicate ShaLike(sha: string) {
    |sha| >= 7 && forall i :: 0 <= i < 7 ==> sha[i] as int < 0x80
  }

  predicate AllShaLike(shas: seq<string>) {
    forall k :: 0 <= k < |shas| ==> ShaLike(shas[k])
  }

  /** The abbreviated hash the rebase plan shows. */
  function ShortSha(sha: string): (r: string)
    requires ShaLike(sha)
    ensures |r| == 7 && StartsWith(sha, r)
  {
    sha[..7]
  }

  /** The sed rule turning the commit's "pick" into "squash". */
  function SquashRule(short: string): string {
    "s/^pick " + short + "/squash " + short + "/g; "
  }

  const RuleLen: nat := 34

  /** The list in the opposite order (`Iterator::rev`). */
  function Reverse(s: seq<string>): (r: seq<string>)
    ensures |r| == |s| && forall k :: 0 <= k < |s| ==> r[k] == s[|s| - 1 - k]
  {
    seq(|s|, k requires 0 <= k < |s| => s[|s| - 1 - k])
  }

  /** The rules for a list of commits, oldest first: none for the oldest,
      one per later commit. */
  function SedRules(oldestFirst: seq<string>): string
    requires AllShaLike(oldestFirst)
  {
    if |oldestFirst| <= 1 then []
    else SedRules(oldestFirst[..|oldestFirst| - 1]) + SquashRule(ShortSha(oldestFirst[|oldestFirst| - 1]))
  }

  /** The script is one fixed-width rule per commit after the oldest, in
      order: the k-th rule marks the (k+1)-th oldest commit "squash", and
      the oldest commit keeps its "pick". */
  lemma {:induction false} SedRulesLayout(xs: seq<string>)
    requires |xs| >= 1 && AllShaLike(xs)
    ensures |SedRules(xs)| == RuleLen * (|xs| - 1)
    ensures forall k :: 1 <= k < |xs| ==> SedRules(xs)[RuleLen * (k - 1)..RuleLen * k] == SquashRule(ShortSha(xs[k]))
  {
    if |xs| > 1 {
      var n := |xs| - 1;
      var init := xs[..n];
      SedRulesLayout(init);
      var r := SedRules(init);
      var rule := SquashRule(ShortSha(xs[n]));
      assert |rule| == RuleLen;
      assert SedRules(xs) == r + rule;
      forall k | 1 <= k < |xs| ensures (r + rule)[RuleLen * (k - 1)..RuleLen * k] == SquashRule(ShortSha(xs[k])) {
        if k < n {
          assert init[k] == xs[k];
          assert (r + rule)[RuleLen * (k - 1)..RuleLen * k] == r[RuleLen * (k - 1)..RuleLen * k];
        } else {
          assert RuleLen * (k - 1) == |r| && RuleLen * k == |r| + RuleLen;
          assert (r + rule)[|r|..|r| + RuleLen] == rule;
        }
      }
    }
  }

  /** The sed rules built over the commits listed newest first. */
  method BuildSedCommand(commitList: seq<string>) returns (sed: string)
    requires AllShaLike(commitList)
    ensures sed == SedRules(Reverse(commitList))
  {
    var oldestFirst := Reverse(commitList);
    sed := [];
    for i := 0 to |oldestFirst|
      invariant sed == SedRules(oldestFirst[..i])
    {
      var shortSha := oldestFirst[i][..7];
      if i != 0 {
        assert oldestFirst[..i + 1][..i] == oldestFirst[..i];
        sed := sed + ("s/^pick " + shortSha + "/squash " + shortSha + "/g; ");
      }
    }
    assert oldestFirst[..|oldestFirst|] == oldestFirst;
  }

  /** How preparing the rebase of a squash ends. */
  datatype SquashPlan = SequenceEditor(command: string) | Refused(error: string)

  /** The sequence editor for the commits `git log` listed, newest first. */
  function SquashScript(commitList: seq<string>): SquashPlan
    requires AllShaLike(commitList)
  {
    if commitList == [] then Refused("No commits to squash")
    else
      var sed := SedRules(Reverse(commitList));
      if sed == [] then Refused("Only one commit, cannot squash")
      else SequenceEditor("sed -i '" + sed + "'")
  }

  /** The squash goes ahead exactly when there are two commits or more; an
      empty list and a single commit are each refused with their own error,
      and the script marks every commit but the oldest. */
  lemma SquashScriptCases(commitList: seq<string>)
    requires AllShaLike(commitList)
    ensures SquashScript(commitList).SequenceEditor? <==> |commitList| >= 2
    ensures commitList == [] ==> SquashScript(commitList) == Refused("No commits to squash")
    ensures |commitList| == 1 ==> SquashScript(commitList) == Refused("Only one commit, cannot squash")
    ensures |commitList| >= 2 ==>
      SquashScript(commitList).command == "sed -i '" + SedRules(Reverse(commitList)) + "'"
  {
    if commitList != [] {
      var oldestFirst := Reverse(commitList);
      assert AllShaLike(oldestFirst) by {
        forall k | 0 <= k < |oldestFirst| ensures ShaLike(oldestFirst[k]) {
          assert oldestFirst[k] == commitList[|commitList| - 1 - k];
        }
      }
      SedRulesLayout(oldestFirst);
    }
  }

  /** The part of `execute_squash_commits` that prepares the rebase, from the
      listed commits on. */
  method PrepareSquash(commitList: seq<string>) returns (plan: SquashPlan)
    requires AllShaLike(commitList)
    ensures plan == SquashScript(commitList)
  {
    if commitList == [] {
      return Refused("No commits to squash");
    }
    var sed := BuildSedCommand(commitList);
    if sed == [] {
      return Refused("Only one commit, cannot squash");
    }
    plan := SequenceEditor("sed -i '" + sed + "'");
  }
}
