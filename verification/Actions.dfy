/** libsieve_eval and the action callbacks: which actions a script performs, and which it must not combine. */
module Actions {

  const SIEVE2_OK := 0
  const SIEVE2_ERROR_EXEC := 5

  /** Tests; what a test other than the boolean ones finds is an oracle's answer to its number. */
  datatype Test = AllOf(tests: seq<Test>) | AnyOf(tests: seq<Test>) | Not(test: Test) | True | False | Ask(id: int)

  /** What the many checks of a vacation command lead to. */
  datatype Decision = Respond | Skip | Wrong

  datatype Action = Reject | Fileinto | Redirect | Keep | Vacation | Discard | Notify

  /** A command, in the list of commands that it starts. */
  datatype Commands =
    | Nil
    | If(test: Test, thn: Commands, els: Commands, next: Commands)
    | Do(action: Action, next: Commands)
    | DoVacation(decision: Decision, next: Commands)
    | Stop(next: Commands)
    | FlagCommand(next: Commands)

  type Oracle = int -> bool

  // ----- tests

  predicate Holds(t: Test, o: Oracle) {
    match t
    case AllOf(ts) => forall i :: 0 <= i < |ts| ==> Holds(ts[i], o)
    case AnyOf(ts) => exists i :: 0 <= i < |ts| && Holds(ts[i], o)
    case Not(u) => !Holds(u, o)
    case True => true
    case False => false
    case Ask(id) => o(id)
  }

  /** static_evaltest; allof evaluates each of its tests twice. */
  method EvalTest(t: Test, o: Oracle) returns (res: bool)
    ensures res <==> Holds(t, o)
  {
    match t {
      case AnyOf(ts) =>
        res := false;
        var i := 0;
        while i < |ts| && !res
          invariant 0 <= i <= |ts|
          invariant res <==> exists k :: 0 <= k < i && Holds(ts[k], o)
        {
          res := EvalTest(ts[i], o);
          i := i + 1;
        }
      case AllOf(ts) =>
        res := true;
        var i := 0;
        while i < |ts| && res
          invariant 0 <= i <= |ts|
          invariant res <==> forall k :: 0 <= k < i ==> Holds(ts[k], o)
        {
          var first := EvalTest(ts[i], o);
          res := res && first;
          var second := EvalTest(ts[i], o);
          if !second {
            res := false;
          }
          i := i + 1;
        }
      case Not(u) =>
        var r := EvalTest(u, o);
        res := !r;
      case True => res := true;
      case False => res := false;
      case Ask(id) => res := o(id);
    }
  }

  // ----- the straight-line meaning of a script

  /** A command without nesting. */
  datatype Prim = Perform(action: Action) | Fail | Halt

  /** The commands that a script comes to if nothing stops it, given the answers of its tests. */
  function Flatten(c: Commands, o: Oracle): seq<Prim>
    decreases c, 1
  {
    if c == Nil then [] else Head(c, o) + Flatten(c.next, o)
  }

  /** The part of it that comes from the first command of the list. */
  function Head(c: Commands, o: Oracle): seq<Prim>
    requires c != Nil
    decreases c, 0
  {
    match c
    case If(t, thn, els, _) => Flatten(if Holds(t, o) then thn else els, o)
    case Do(a, _) => [Perform(a)]
    case DoVacation(d, _) => if d == Respond then [Perform(Vacation)] else if d == Skip then [] else [Fail]
    case Stop(_) => [Halt]
    case FlagCommand(_) => []
  }

  /** Actions that must not be combined with a reject. */
  predicate Delivers(a: Action) {
    a == Fileinto || a == Redirect || a == Keep || a == Vacation
  }

  /** Section 4.1 of RFC 3028: a reject excludes these actions and a second reject. */
  predicate Clash(earlier: Action, later: Action) {
    (later == Reject && (earlier == Reject || Delivers(earlier))) || (Delivers(later) && earlier == Reject)
  }

  /** The action may not follow those of `done`. */
  predicate Conflicts(done: seq<Action>, a: Action) {
    exists b :: b in done && Clash(b, a)
  }

  /** What the command returns when the actions of `done` have been performed. */
  function Code(done: seq<Action>, p: Prim): int {
    match p
    case Perform(a) => if Conflicts(done, a) then SIEVE2_ERROR_EXEC else SIEVE2_OK
    case Fail => -1
    case Halt => 1
  }

  /** The straight-line run of a list of commands: it ends at the first one that does not return 0. */
  function Run(prims: seq<Prim>, done: seq<Action>): (r: (seq<Action>, int)) {
    if prims == [] then (done, 0)
    else if Code(done, prims[0]) != 0 then (done, Code(done, prims[0]))
    else Run(prims[1..], done + [prims[0].action])
  }

  lemma {:induction false} RunConcat(a: seq<Prim>, b: seq<Prim>, done: seq<Action>)
    ensures Run(a + b, done) == if Run(a, done).1 != 0 then Run(a, done) else Run(b, Run(a, done).0)
    decreases |a|
  {
    if a == [] {
      assert a + b == b;
    } else {
      assert (a + b)[1..] == a[1..] + b;
      if Code(done, a[0]) == 0 {
        RunConcat(a[1..], b, done + [a[0].action]);
      }
    }
  }

  lemma RunOne(p: Prim, done: seq<Action>)
    ensures Run([p], done) == if Code(done, p) == 0 then (done + [p.action], 0) else (done, Code(done, p))
  {
  }

  // ----- what a run does, command by command

  /** What the boolean tests say. */
  lemma TestsMean(t: Test, ts: seq<Test>, id: int, o: Oracle)
    ensures Holds(True, o) && !Holds(False, o) && (Holds(Not(t), o) <==> !Holds(t, o)) && (Holds(Ask(id), o) <==> o(id))
    ensures Holds(AllOf([]), o) && (Holds(AllOf(ts + [t]), o) <==> Holds(AllOf(ts), o) && Holds(t, o))
    ensures !Holds(AnyOf([]), o) && (Holds(AnyOf(ts + [t]), o) <==> Holds(AnyOf(ts), o) || Holds(t, o))
  {
    var more := ts + [t];
    assert more[|ts|] == t && forall i :: 0 <= i < |ts| ==> more[i] == ts[i];
  }

  /** The action must not follow those that were performed. */
  predicate Refused(a: Action, done: seq<Action>) {
    match a
    case Reject => Reject in done || Fileinto in done || Redirect in done || Keep in done || Vacation in done
    case Fileinto => Reject in done
    case Redirect => Reject in done
    case Keep => Reject in done
    case Vacation => Reject in done
    case Discard => false
    case Notify => false
  }

  lemma RefusedMeans(a: Action, done: seq<Action>)
    ensures Code(done, Perform(a)) == if Refused(a, done) then 5 else 0
  {
    assert Conflicts(done, a) <==> exists b :: b in done && Clash(b, a);
  }

  /** An if runs the side that its test is answered for, and then what follows unless that side ended the run. */
  lemma RunOfIf(t: Test, thn: Commands, els: Commands, next: Commands, o: Oracle, done: seq<Action>)
    ensures var (performed, res) := Run(Flatten(if Holds(t, o) then thn else els, o), done);
            Run(Flatten(If(t, thn, els, next), o), done) ==
            if res != 0 then (performed, res) else Run(Flatten(next, o), performed)
  {
    RunConcat(Flatten(if Holds(t, o) then thn else els, o), Flatten(next, o), done);
  }

  /** An action is performed and the run goes on, or it is refused and ends the run. */
  lemma RunOfAction(a: Action, next: Commands, o: Oracle, done: seq<Action>)
    ensures Run(Flatten(Do(a, next), o), done) ==
            if Refused(a, done) then (done, 5) else Run(Flatten(next, o), done + [a])
  {
    RunConcat([Perform(a)], Flatten(next, o), done);
    RunOne(Perform(a), done);
    RefusedMeans(a, done);
  }

  /** A vacation command responds like an action, is skipped, or goes wrong and ends the run. */
  lemma RunOfVacation(d: Decision, next: Commands, o: Oracle, done: seq<Action>)
    ensures Run(Flatten(DoVacation(d, next), o), done) ==
            match d
            case Respond => if Reject in done then (done, 5) else Run(Flatten(next, o), done + [Vacation])
            case Skip => Run(Flatten(next, o), done)
            case Wrong => (done, -1)
  {
    var head := Head(DoVacation(d, next), o);
    RunConcat(head, Flatten(next, o), done);
    if head != [] {
      RunOne(head[0], done);
      RefusedMeans(Vacation, done);
    }
  }

  /** A stop ends the run; a flag command does not count; at the end of the list the run has succeeded. */
  lemma RunOfOthers(next: Commands, o: Oracle, done: seq<Action>)
    ensures Run(Flatten(Nil, o), done) == (done, 0)
    ensures Run(Flatten(Stop(next), o), done) == (done, 1)
    ensures Run(Flatten(FlagCommand(next), o), done) == Run(Flatten(next, o), done)
  {
    RunConcat([Halt], Flatten(next, o), done);
    RunOne(Halt, done);
    RunConcat([], Flatten(next, o), done);
  }

  // ----- the interpreter

  /** The action flags of a context, and the callbacks that were made. */
  class Context {
    var reject: bool
    var fileinto: bool
    var redirect: bool
    var keep: bool
    var discard: bool
    var vacation: bool
    var notify: bool
    var performed: seq<Action>

    /** The flags say what has been performed. */
    ghost predicate Valid()
      reads this
    {
      && (reject <==> Reject in performed)
      && (fileinto <==> Fileinto in performed)
      && (redirect <==> Redirect in performed)
      && (keep <==> Keep in performed)
      && (discard <==> Discard in performed)
      && (vacation <==> Vacation in performed)
      && (notify <==> Notify in performed)
    }

    constructor ()
      ensures Valid() && performed == []
    {
      reject, fileinto, redirect, keep, discard, vacation, notify := false, false, false, false, false, false, false;
      performed := [];
    }

    /** The outcome that every action callback shares. */
    twostate predicate Done(a: Action, res: int)
      reads this
    {
      && Valid() && res == Code(old(performed), Perform(a))
      && performed == if res == 0 then old(performed) + [a] else old(performed)
    }

    /** libsieve_do_reject */
    method DoReject() returns (res: int)
      requires Valid()
      modifies this
      ensures Done(Reject, res)
    {
      if fileinto || redirect || keep || reject || vacation {
        return SIEVE2_ERROR_EXEC;
      }
      reject := true;
      performed := performed + [Reject];
      res := SIEVE2_OK;
    }

    /** libsieve_do_fileinto */
    method DoFileinto() returns (res: int)
      requires Valid()
      modifies this
      ensures Done(Fileinto, res)
    {
      if reject {
        return SIEVE2_ERROR_EXEC;
      }
      fileinto := true;
      performed := performed + [Fileinto];
      res := SIEVE2_OK;
    }

    /** libsieve_do_redirect */
    method DoRedirect() returns (res: int)
      requires Valid()
      modifies this
      ensures Done(Redirect, res)
    {
      if reject {
        return SIEVE2_ERROR_EXEC;
      }
      redirect := true;
      performed := performed + [Redirect];
      res := SIEVE2_OK;
    }

    /** libsieve_do_keep */
    method DoKeep() returns (res: int)
      requires Valid()
      modifies this
      ensures Done(Keep, res)
    {
      if reject {
        return SIEVE2_ERROR_EXEC;
      }
      keep := true;
      performed := performed + [Keep];
      res := SIEVE2_OK;
    }

    /** libsieve_do_discard */
    method DoDiscard() returns (res: int)
      requires Valid()
      modifies this
      ensures Done(Discard, res)
    {
      discard := true;
      performed := performed + [Discard];
      res := SIEVE2_OK;
    }

    /** libsieve_do_vacation */
    method DoVacationReply() returns (res: int)
      requires Valid()
      modifies this
      ensures Done(Vacation, res)
    {
      if reject {
        return SIEVE2_ERROR_EXEC;
      }
      vacation := true;
      performed := performed + [Vacation];
      res := SIEVE2_OK;
    }

    /** libsieve_do_notify */
    method DoNotify() returns (res: int)
      requires Valid()
      modifies this
      ensures Done(Notify, res)
    {
      notify := true;
      performed := performed + [Notify];
      res := SIEVE2_OK;
    }

    method DoAction(a: Action) returns (res: int)
      requires Valid()
      modifies this
      ensures Done(a, res)
    {
      match a {
        case Reject => res := DoReject();
        case Fileinto => res := DoFileinto();
        case Redirect => res := DoRedirect();
        case Keep => res := DoKeep();
        case Vacation => res := DoVacationReply();
        case Discard => res := DoDiscard();
        case Notify => res := DoNotify();
      }
    }

    /** libsieve_eval: the nested interpreter does exactly what the straight-line run does. */
    method Eval(c0: Commands, o: Oracle) returns (res: int)
      requires Valid()
      modifies this
      ensures Valid() && (performed, res) == Run(Flatten(c0, o), old(performed))
      decreases c0, 1
    {
      res := 0;
      var c := c0;
      while c != Nil
        invariant Valid() && res == 0
        invariant Run(Flatten(c, o), performed) == Run(Flatten(c0, o), old(performed))
        invariant c == c0 || c < c0
        decreases c
      {
        RunConcat(Head(c, o), Flatten(c.next, o), performed);
        res := EvalCommand(c, o);
        if res != 0 {
          break;
        }
        c := c.next;
      }
    }

    /** The switch of libsieve_eval over one command. */
    method EvalCommand(c: Commands, o: Oracle) returns (res: int)
      requires Valid() && c != Nil
      modifies this
      ensures Valid() && (performed, res) == Run(Head(c, o), old(performed))
      decreases c, 0
    {
      res := 0;
      match c {
        case If(t, thn, els, _) =>
          var holds := EvalTest(t, o);
          if holds {
            res := Eval(thn, o);
          } else {
            res := Eval(els, o);
          }
        case Do(a, _) =>
          RunOne(Perform(a), performed);
          res := DoAction(a);
        case DoVacation(d, _) =>
          if d == Respond {
            RunOne(Perform(Vacation), performed);
            res := DoVacationReply();
          } else if d == Wrong {
            res := -1;
          }
        case Stop(_) => res := 1;
        case FlagCommand(_) =>
      }
    }
  }

  // ----- safety of whole runs

  /** A reject is alone among the actions that it excludes. */
  ghost predicate Safe(done: seq<Action>) {
    forall i, j :: 0 <= i < |done| && 0 <= j < |done| && i != j && done[i] == Reject ==>
        done[j] != Reject && !Delivers(done[j])
  }

  /** The first `n` commands are performed, and the run ends there for the reason that `code` gives. */
  ghost predicate EndsAt(prims: seq<Prim>, n: nat, done: seq<Action>, code: int) {
    && n <= |prims| && |done| == n
    && (forall i :: 0 <= i < n ==> prims[i] == Perform(done[i]) && !Conflicts(done[..i], done[i]))
    && (if n == |prims| then code == 0 else code != 0 && code == Code(done, prims[n]))
  }

  /** The run performs a prefix of the commands, up to the first stop, failure or conflict. */
  lemma {:induction false} RunPerformsPrefix(prims: seq<Prim>)
    ensures EndsAt(prims, |Run(prims, []).0|, Run(prims, []).0, Run(prims, []).1)
  {
    RunFrom(prims, 0, []);
    assert prims[0..] == prims;
  }

  lemma {:induction false} RunFrom(prims: seq<Prim>, n: nat, done: seq<Action>)
    requires n <= |prims| && |done| == n
    requires forall i :: 0 <= i < n ==> prims[i] == Perform(done[i]) && !Conflicts(done[..i], done[i])
    ensures var r := Run(prims[n..], done); EndsAt(prims, |r.0|, r.0, r.1)
    decreases |prims| - n
  {
    if n < |prims| && Code(done, prims[n]) == 0 {
      var more := done + [prims[n].action];
      forall i | 0 <= i < n + 1
        ensures prims[i] == Perform(more[i]) && !Conflicts(more[..i], more[i])
      {
        assert more[..i] == done[..i];
        assert done[..n] == done;
      }
      assert prims[n..][1..] == prims[n + 1..];
      RunFrom(prims, n + 1, more);
    }
  }

  lemma PrefixIsSafe(prims: seq<Prim>, n: nat, done: seq<Action>, code: int)
    requires EndsAt(prims, n, done, code)
    ensures Safe(done)
  {
    forall i, j | 0 <= i < j < |done|
      ensures done[i] == Reject ==> done[j] != Reject && !Delivers(done[j])
      ensures done[j] == Reject ==> done[i] != Reject && !Delivers(done[i])
    {
      assert done[..j][i] == done[i] && done[i] in done[..j];
    }
  }

  /** For every script and every outcome of its tests, what a run performs is a prefix of the
      straight-line commands, free of forbidden combinations; nothing after a stop or a conflict runs. */
  lemma RunIsSafe(c: Commands, o: Oracle)
    ensures var (performed, res) := Run(Flatten(c, o), []);
            Safe(performed) && EndsAt(Flatten(c, o), |performed|, performed, res)
  {
    RunPerformsPrefix(Flatten(c, o));
    var r := Run(Flatten(c, o), []);
    PrefixIsSafe(Flatten(c, o), |r.0|, r.0, r.1);
  }

  // ----- what a run does, read off the script

  /** The first `n` commands are actions. */
  predicate ActionsOnly(prims: seq<Prim>, n: nat) {
    n <= |prims| && forall k :: 0 <= k < n ==> prims[k].Perform?
  }

  /** Command `j` is an action that clashes with an earlier one, and nothing but actions stands before it. */
  predicate ClashAt(prims: seq<Prim>, j: nat) {
    ActionsOnly(prims, j + 1) && exists i :: 0 <= i < j && Clash(prims[i].action, prims[j].action)
  }

  /** Nothing in the first `n` commands ends the run. */
  predicate Clear(prims: seq<Prim>, n: nat) {
    ActionsOnly(prims, n) && forall k :: 0 <= k < n ==> !ClashAt(prims, k)
  }

  /** Command `j` is a vacation command that goes wrong, and the run gets there. */
  predicate FailsAt(prims: seq<Prim>, j: nat) {
    Clear(prims, j) && j < |prims| && prims[j] == Fail
  }

  /** Two vacation replies stand before anything that ends the run. */
  predicate TwoVacations(prims: seq<Prim>, i: nat, j: nat) {
    i < j && Clear(prims, j + 1) && prims[i] == prims[j] == Perform(Vacation)
  }

  /** A run performs the longest clear prefix. */
  lemma RunIsLongestClear(prims: seq<Prim>)
    ensures var (performed, res) := Run(prims, []);
            && EndsAt(prims, |performed|, performed, res)
            && forall n: nat :: Clear(prims, n) <==> n <= |performed|
  {
    var (performed, res) := Run(prims, []);
    RunPerformsPrefix(prims);
    assert forall i, k :: 0 <= i < k < |performed| ==> performed[..k][i] in performed[..k];
    if |performed| < |prims| && prims[|performed|].Perform? {
      var b :| b in performed && Clash(b, prims[|performed|].action);
      var i :| 0 <= i < |performed| && performed[i] == b;
      assert ClashAt(prims, |performed|);
    }
  }

  /** The result tells a conflict by SIEVE2_ERROR_EXEC, exactly when two actions of the script clash. */
  lemma ConflictExactlyWhen(c: Commands, o: Oracle)
    ensures Run(Flatten(c, o), []).1 == SIEVE2_ERROR_EXEC <==> exists j: nat :: ClashAt(Flatten(c, o), j)
  {
    hide Flatten, Head, Run;
    var prims := Flatten(c, o);
    RunIsLongestClear(prims);
    var n := |Run(prims, []).0|;
    if Run(prims, []).1 == SIEVE2_ERROR_EXEC {
      assert ActionsOnly(prims, n + 1) && !Clear(prims, n + 1);
    }
    if j: nat :| ClashAt(prims, j) {
      assert !Clear(prims, j + 1);
    }
  }

  /** The result is negative exactly when the script comes to a vacation command that goes wrong. */
  lemma NegativeExactlyWhen(c: Commands, o: Oracle)
    ensures Run(Flatten(c, o), []).1 < 0 <==> exists j: nat :: FailsAt(Flatten(c, o), j)
  {
    var prims := Flatten(c, o);
    RunIsLongestClear(prims);
    var n := |Run(prims, []).0|;
    if Run(prims, []).1 < 0 {
      assert FailsAt(prims, n);
    }
    if j: nat :| FailsAt(prims, j) {
      assert !Clear(prims, j + 1);
    }
  }

  /** The run ends neither at the end of the script nor at a stop. */
  ghost predicate EndsInError(prims: seq<Prim>) {
    var performed := Run(prims, []).0;
    |performed| < |prims| && prims[|performed|] != Halt
  }

  /** libsieve_eval promises a negative result for every error. It keeps the promise if and only if no
      two actions of the script clash: a conflict gives the positive SIEVE2_ERROR_EXEC. */
  lemma NegativeOnErrorExactlyWhen(c: Commands, o: Oracle)
    ensures (EndsInError(Flatten(c, o)) ==> Run(Flatten(c, o), []).1 < 0) <==>
              !exists j: nat :: ClashAt(Flatten(c, o), j)
  {
    RunPerformsPrefix(Flatten(c, o));
    ConflictExactlyWhen(c, o);
  }

  /** The script makes two vacation replies exactly when they stand before anything that ends its run. */
  lemma TwoVacationsExactlyWhen(c: Commands, o: Oracle)
    ensures
      var performed := Run(Flatten(c, o), []).0;
      (exists i, j :: 0 <= i < j < |performed| && performed[i] == performed[j] == Vacation)
      <==> exists i: nat, j: nat :: TwoVacations(Flatten(c, o), i, j)
  {
    var prims := Flatten(c, o);
    var performed := Run(prims, []).0;
    RunIsLongestClear(prims);
    if i, j :| 0 <= i < j < |performed| && performed[i] == performed[j] == Vacation {
      assert TwoVacations(prims, i, j);
    }
    if i: nat, j: nat :| TwoVacations(prims, i, j) {
      assert j + 1 <= |performed| && performed[i] == performed[j] == Vacation;
    }
  }

  // ----- inputs at which the code does not do what it says

  lemma FlattenTwo(a: Action, b: Action, o: Oracle)
    ensures Flatten(Do(a, Do(b, Nil)), o) == [Perform(a), Perform(b)]
  {
    assert Flatten(Nil, o) == [] && Flatten(Do(b, Nil), o) == [Perform(b)];
    assert Flatten(Do(a, Do(b, Nil)), o) == [Perform(a)] + [Perform(b)];
  }

  lemma RunTwo(a: Action, b: Action)
    ensures Run([Perform(a), Perform(b)], []) == if Clash(a, b) then ([a], SIEVE2_ERROR_EXEC) else ([a, b], 0)
  {
    RunConcat([Perform(a)], [Perform(b)], []);
    assert [Perform(a)] + [Perform(b)] == [Perform(a), Perform(b)];
    RunOne(Perform(a), []);
    assert [] + [a] == [a] && [a] + [b] == [a, b];
    RunOne(Perform(b), [a]);
    assert a in [a];
  }

  /** A keep and then a reject: the reject is not performed, and the result looks like a stop. */
  lemma ConflictLooksLikeStop(o: Oracle)
    ensures Run(Flatten(Do(Keep, Do(Reject, Nil)), o), []) == ([Keep], SIEVE2_ERROR_EXEC)
  {
    FlattenTwo(Keep, Reject, o);
    RunTwo(Keep, Reject);
  }

  /** Two vacation commands that both respond: both replies are made. */
  lemma SecondVacationIsPerformed(o: Oracle)
    ensures Run(Flatten(DoVacation(Respond, DoVacation(Respond, Nil)), o), []) == ([Vacation, Vacation], 0)
  {
    assert Flatten(Nil, o) == [] && Flatten(DoVacation(Respond, Nil), o) == [Perform(Vacation)];
    assert Flatten(DoVacation(Respond, DoVacation(Respond, Nil)), o) == [Perform(Vacation)] + [Perform(Vacation)];
    assert [Perform(Vacation)] + [Perform(Vacation)] == [Perform(Vacation), Perform(Vacation)];
    RunTwo(Vacation, Vacation);
  }

  /** A script evaluated in a fresh context. */
  method EvalFresh(c: Commands, o: Oracle) returns (performed: seq<Action>, res: int)
    ensures (performed, res) == Run(Flatten(c, o), [])
    ensures Safe(performed) && EndsAt(Flatten(c, o), |performed|, performed, res)
  {
    var context := new Context();
    res := context.Eval(c, o);
    performed := context.performed;
    RunIsSafe(c, o);
  }

  /** sieve2_execute, after the script is parsed: only a vacation command that goes wrong is reported. */
  method Execute(c: Commands, o: Oracle) returns (performed: seq<Action>, status: int)
    ensures Safe(performed) && forall n: nat :: Clear(Flatten(c, o), n) <==> n <= |performed|
    ensures |performed| <= |Flatten(c, o)| && forall k :: 0 <= k < |performed| ==>
              Flatten(c, o)[k] == Perform(performed[k])
    ensures status == if exists j: nat :: FailsAt(Flatten(c, o), j) then SIEVE2_ERROR_EXEC else SIEVE2_OK
  {
    var res;
    performed, res := EvalFresh(c, o);
    RunIsLongestClear(Flatten(c, o));
    NegativeExactlyWhen(c, o);
    status := if res < 0 then SIEVE2_ERROR_EXEC else SIEVE2_OK;
  }
}
