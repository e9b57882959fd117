/**
  lookup/internal/filter.go: turning a process selector into the expression
  that selects its lsof lines, from the pids of the processes it names.
*/
module LookupFilter {
  import opened Wrappers
  import opened Text
  import opened Net

  /** A running process, as this package's tasklist decoder reports it. */
  datatype Task = Task(image: string, pid: string)

  /** The pids of every task running `image`, in task order. */
  function Pids(tasks: seq<Task>, image: string): (r: seq<string>)
    ensures |r| <= |tasks|
  {
    if |tasks| == 0 then []
    else
      var last := tasks[|tasks| - 1];
      Pids(tasks[..|tasks| - 1], image) + (if last.image == image then [last.pid] else [])
  }

  /** PidsFromTasks: the pids of every task whose image is `image`, in order (empty, not nil, for none). */
  method PidsFromTasks(tasks: seq<Task>, image: string) returns (pids: seq<string>)
    ensures pids == Pids(tasks, image)
  {
    pids := [];
    for i := 0 to |tasks|
      invariant pids == Pids(tasks[..i], image)
    {
      assert tasks[..i + 1][..i] == tasks[..i];
      if tasks[i].image != image {
        continue;
      }
      pids := pids + [tasks[i].pid];
    }
    assert tasks[..|tasks|] == tasks;
  }

  lemma {:induction false} PidsConcat(a: seq<Task>, b: seq<Task>, image: string)
    ensures Pids(a + b, image) == Pids(a, image) + Pids(b, image)
    decreases |b|
  {
    if |b| > 0 {
      assert (a + b)[..|a + b| - 1] == a + b[..|b| - 1];
      PidsConcat(a, b[..|b| - 1], image);
    } else {
      assert a + b == a;
    }
  }

  /** A pid is reported exactly when a task with that pid runs the image. */
  lemma {:induction false} PidsMembers(tasks: seq<Task>, image: string, pid: string)
    ensures pid in Pids(tasks, image) <==> Task(image, pid) in tasks
  {
    if |tasks| > 0 {
      var init := tasks[..|tasks| - 1];
      PidsMembers(init, image, pid);
      assert tasks == init + [tasks[|tasks| - 1]];
    }
  }

  /** When every task runs the image, every pid is reported, duplicates included. */
  lemma {:induction false} PidsKeepsDuplicates(tasks: seq<Task>, image: string)
    requires forall k :: 0 <= k < |tasks| ==> tasks[k].image == image
    ensures |Pids(tasks, image)| == |tasks|
    ensures forall k :: 0 <= k < |tasks| ==> Pids(tasks, image)[k] == tasks[k].pid
  {
    if |tasks| > 0 {
      PidsKeepsDuplicates(tasks[..|tasks| - 1], image);
    }
  }

  const Exe := ".exe"
  const App := ".app"

  /** The separator of the alternatives of the pid expression. */
  const Bar := "|"

  /**
    prepareNFExprWin, with `tasks` what running tasklist for `s` gave: an
    executable name with running tasks of that image becomes the alternation
    of their pids; anything else is returned as it is.
  */
  function PrepareNFExprWin(s: string, tasks: seq<Task>): (r: string)
    ensures !HasSuffix(s, Exe) || Pids(tasks, s) == [] ==> r == s
    ensures HasSuffix(s, Exe) && Pids(tasks, s) != [] ==> r == Join(Pids(tasks, s), Bar)
  {
    if !HasSuffix(s, Exe) then s
    else if |tasks| == 0 then s
    else
      var pids := Pids(tasks, s);
      if |pids| == 0 then s else Join(pids, Bar)
  }

  /**
    The expression prepareNFExprWin builds lists the pids back: split at
    `|`, it is the pids of every task of that image, in order.
  */
  lemma PrepareNFExprWinPids(s: string, tasks: seq<Task>)
    requires HasSuffix(s, Exe) && Pids(tasks, s) != []
    requires forall k :: 0 <= k < |tasks| ==> Free(tasks[k].pid, '|')
    ensures Split(PrepareNFExprWin(s, tasks), Bar) == Pids(tasks, s)
  {
    var pids := Pids(tasks, s);
    forall k, j | 0 <= k < |pids| && 0 <= j < |pids[k]| ensures pids[k][j] != '|' {
      PidsMembers(tasks, s, pids[k]);
      var t :| t in tasks && t == Task(s, pids[k]);
    }
    SplitJoinChar(pids, '|');
  }

  /**
    prepareNFExprDarwin, with its system calls as parameters: `isFile` for
    os.Stat succeeding, `appName` for reading the bundle's executable name,
    `pids` for pgrep. A path to an application bundle (trailing slashes
    aside) whose executable has running processes becomes the alternation
    of their pids; every other selector is returned as it is.
  */
  function PrepareNFExprDarwin(s: string, isFile: string -> bool, appName: string -> Option<string>,
                               pids: string -> seq<string>): (r: string)
    ensures !isFile(s) || !HasSuffix(TrimRight(s, '/'), App) ==> r == s
    ensures isFile(s) && HasSuffix(TrimRight(s, '/'), App) && appName(TrimRight(s, '/')).None? ==> r == s
    ensures isFile(s) && HasSuffix(TrimRight(s, '/'), App) && appName(TrimRight(s, '/')).Some? ==>
      var p := pids(appName(TrimRight(s, '/')).value);
      r == if p == [] then s else Join(p, Bar)
  {
    if !isFile(s) then s
    else
      var path := TrimRight(s, '/');
      if !HasSuffix(path, App) then s
      else match appName(path)
        case None => s
        case Some(name) =>
          var p := pids(name);
          if |p| == 0 then s else Join(p, Bar)
  }

  /** The bundle test ignores trailing slashes: `X.app`, `X.app/` and `X.app//` are one bundle. */
  lemma {:induction false} TrailingSlashes(path: string, n: nat)
    requires HasSuffix(path, App)
    ensures TrimRight(path + Repeat('/', n), '/') == path
    decreases n
  {
    var s := path + Repeat('/', n);
    if n == 0 {
      assert s == path;
      assert path[|path| - 1] == App[3];
    } else {
      assert s[..|s| - 1] == path + Repeat('/', n - 1);
      TrailingSlashes(path, n - 1);
    }
  }
}
