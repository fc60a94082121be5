/** The part of the server that runs Set transactions, step by step on its own fields. */
module SetServer {
  import opened DataTree
  import opened SetLog
  import opened SetModel

  class Server {
    const env: Env

    var root: Tree
    var setSeq: nat
    var setBackup: seq<SetEntry>
    var calls: seq<Call>          // the calls made into the subsystem so far

    constructor (env: Env, root: Tree)
      ensures this.env == env && CurrentState() == State(root, 0, [], [])
    {
      this.env := env;
      this.root := root;
      setSeq, setBackup, calls := 0, [], [];
    }

    function CurrentState(): State
      reads this
    {
      State(root, setSeq, setBackup, calls)
    }

    method SetStart(rollback: bool) returns (err: Option<Error>)
      modifies this
      ensures (CurrentState(), err) == Start(env, old(CurrentState()), rollback)
    {
      if !rollback {
        setSeq := NextSeq(setSeq);
        setBackup := [];
      }
      err := None;
      if env.hasTransaction {
        calls := calls + [Call.SetStart(setSeq, rollback)];
        if env.fails(calls) {
          err := Some(SubsystemError);
        }
      }
    }

    method SetEnd(err: Option<Error>) returns (res: Option<Error>)
      modifies this
      ensures (CurrentState(), res) == End(env, old(CurrentState()), err)
    {
      if !env.hasTransaction {
        return err;
      }
      calls := calls + [Call.SetEnd(setSeq)];
      var enderr := if env.fails(calls) then Some(SubsystemError) else None;
      if err.Some? {
        return err;
      }
      return enderr;
    }

    method SetDone(err: Option<Error>)
      modifies this
      ensures CurrentState() == Finish(env, old(CurrentState()), err)
    {
      if !env.updatedByServer || err.Some? {
        var i := 0;
        while i < |setBackup|
          invariant i <= |setBackup|
          invariant setBackup == old(setBackup) && setSeq == old(setSeq) && calls == old(calls)
          invariant root == RestorePass(env.treeFails, old(root), setBackup[..i])
        {
          var e := setBackup[i];
          assert setBackup[..i + 1][..i] == setBackup[..i];
          if e.path == [] {
            var saved := if e.saved.Some? then e.saved.value else map[];
            assert saved == Put(root, [], e.saved);
            root := saved;
          } else if !env.treeFails(root, e.path) {
            root := Put(root, e.path, e.saved);
          }
          i := i + 1;
        }
        assert setBackup[..|setBackup|] == setBackup;
      }
      setBackup := [];
    }

    /** Runs the callback of the `i`th entry; in a rollback only if it has run before. */
    method ExecSetCallback(i: nat, rollback: bool) returns (err: Option<Error>)
      requires i < |setBackup|
      modifies this
      ensures root == old(root) && setSeq == old(setSeq)
      ensures var e := old(setBackup)[i];
        if !env.hasCallback || (rollback && !e.executed) then
          err.None? && setBackup == old(setBackup) && calls == old(calls)
        else
          && setBackup == old(setBackup)[i := e.(executed := true)]
          && calls == old(calls) + [if rollback then SetCallback(e.op, e.path, e.written, e.saved)
                                    else SetCallback(e.op, e.path, e.saved, e.written)]
          && err == if env.fails(calls) then Some(OperationFail) else None
    {
      err := None;
      if !env.hasCallback {
        return;
      }
      var e := setBackup[i];
      var cur, want := e.saved, e.written;
      if rollback {
        cur, want := e.written, e.saved;
        if !e.executed {
          return;
        }
      }
      setBackup := setBackup[i := e.(executed := true)];
      calls := calls + [SetCallback(e.op, e.path, cur, want)];
      if env.fails(calls) {
        err := Some(OperationFail);
      }
    }

    method SetRollback()
      modifies this
      ensures CurrentState() == Rollback(env, old(CurrentState()))
    {
      if !env.hasTransaction {
        return;
      }
      var i := 0;
      while i < |setBackup|
        invariant i <= |setBackup|
        invariant root == old(root) && setSeq == old(setSeq) && setBackup == old(setBackup)
        invariant calls == old(calls) + if env.hasCallback then Inverses(setBackup[..i]) else []
      {
        assert setBackup[..i + 1][..i] == setBackup[..i];
        var _ := ExecSetCallback(i, true);
        i := i + 1;
      }
      assert setBackup[..|setBackup|] == setBackup;
    }

    /** Appends an entry for an edit just made and tells the subsystem. */
    method Record(e: SetEntry) returns (err: Option<Error>)
      requires !e.executed
      modifies this
      ensures (CurrentState(), err) == LogEdit(env, old(CurrentState()), e)
    {
      setBackup := setBackup + [e];
      assert setBackup[|setBackup| - 1 := e.(executed := true)] == old(setBackup) + [e.(executed := true)];
      err := ExecSetCallback(|setBackup| - 1, false);
    }

    method SetDelete(pat: Pattern) returns (err: Option<Error>)
      modifies this
      ensures (CurrentState(), err) == Perform(env, old(CurrentState()), Delete(pat))
    {
      if !env.validPath(pat) {
        return Some(InvalidPath);
      }
      var nodes := env.order(Find(root, pat));
      var i := 0;
      while i < |nodes|
        invariant i <= |nodes|
        invariant EditNodes(env, old(CurrentState()), Delete(pat), nodes)
               == EditNodes(env, CurrentState(), Delete(pat), nodes[i..])
      {
        var p := nodes[i];
        if env.readOnlyNode(p) {
          return Some(InvalidPath);
        }
        var saved := Subtree(root, p);
        if p == [] {
          root := env.newRoot;
        } else {
          if env.treeFails(root, p) {
            return Some(BadData);
          }
          root := Prune(root, p);
        }
        err := Record(SetEntry(DELETE, p, saved, None, false));
        if err.Some? {
          return;
        }
        i := i + 1;
      }
      err := None;
    }

    method SetReplace(pat: Pattern, val: string) returns (err: Option<Error>)
      modifies this
      ensures (CurrentState(), err) == Perform(env, old(CurrentState()), Replace(pat, val))
    {
      hide Find, Put, Subtree, Graft, PathOf, IsConcrete;
      if !env.validPath(pat) {
        return Some(InvalidPath);
      }
      var nodes := env.order(Find(root, pat));
      if |nodes| == 0 {
        if env.readOnlyPath(pat) {
          return Some(InvalidPath);
        }
        if !IsConcrete(pat) {
          return Some(OperationFail);
        }
        nodes := [PathOf(pat)];
      }
      var i := 0;
      while i < |nodes|
        invariant i <= |nodes|
        invariant EditNodes(env, old(CurrentState()), Replace(pat, val), nodes)
               == EditNodes(env, CurrentState(), Replace(pat, val), nodes[i..])
      {
        var p := nodes[i];
        if env.readOnlyPath(pat) {
          return Some(InvalidPath);
        }
        var node := env.build(p, val);
        if node.None? {
          return Some(BadData);
        }
        var saved := Subtree(root, p);
        if p == [] {
          root := node.value;
        } else {
          if env.treeFails(root, p) {
            return Some(OperationFail);
          }
          root := Put(root, p, node);
        }
        err := Record(SetEntry(REPLACE, p, saved, node, false));
        if err.Some? {
          return;
        }
        i := i + 1;
      }
      err := None;
    }

    method SetUpdate(pat: Pattern, val: string) returns (err: Option<Error>)
      modifies this
      ensures (CurrentState(), err) == Perform(env, old(CurrentState()), Update(pat, val))
    {
      hide Find, Put, Subtree, Graft, PathOf, IsConcrete;
      if !env.validPath(pat) {
        return Some(InvalidPath);
      }
      var nodes := env.order(Find(root, pat));
      if |nodes| == 0 {
        if env.readOnlyPath(pat) {
          return Some(InvalidPath);
        }
        if !IsConcrete(pat) {
          return Some(OperationFail);
        }
        nodes := [PathOf(pat)];
      }
      var i := 0;
      while i < |nodes|
        invariant i <= |nodes|
        invariant EditNodes(env, old(CurrentState()), Update(pat, val), nodes)
               == EditNodes(env, CurrentState(), Update(pat, val), nodes[i..])
      {
        var p := nodes[i];
        if env.readOnlyPath(pat) {
          return Some(InvalidPath);
        }
        var node := env.build(p, val);
        if node.None? {
          return Some(BadData);
        }
        var backup := Subtree(root, p);
        if env.treeFails(root, p) {
          return Some(OperationFail);
        }
        root := Graft(root, p, node.value);
        err := Record(SetEntry(REPLACE, p, backup, Subtree(root, p), false));
        if err.Some? {
          return;
        }
        i := i + 1;
      }
      err := None;
    }

    /** Reads startup data into a fresh root, which becomes the root once the subsystem has
        accepted it. */
    method SetLoad(encoding: int, parsed: Option<Tree>) returns (err: Option<Error>)
      modifies this
      ensures (CurrentState(), err) == PerformLoad(env, old(CurrentState()), Startup(env, encoding, parsed))
    {
      var node := env.newRoot;
      if encoding == ENCODING_JSON || encoding == ENCODING_JSON_IETF {
        if parsed.None? {
          return Some(OperationFail);
        }
        node := parsed.value;
      } else if encoding == ENCODING_YAML {
        return Some(OperationFail);
      }
      err := Record(SetEntry(INVALID, [], Some(root), Some(node), false));
      if err.None? {
        root := node;
      }
    }

    /** The last lines of Load and Set: end, roll back after an error, and clean up. */
    method Conclude(err: Option<Error>) returns (res: Option<Error>)
      modifies this
      ensures (CurrentState(), res) == Close(env, old(CurrentState()), err)
    {
      res := SetEnd(err);
      if res.Some? {
        var _ := SetStart(true);
        SetRollback();
        var _ := SetEnd(None);
      }
      SetDone(res);
    }

    /** Loads the startup tree. */
    method Load(encoding: int, parsed: Option<Tree>) returns (err: Option<Error>)
      modifies this
      ensures var (last, e, _) := Transact(env, old(CurrentState()), LoadTx(Startup(env, encoding, parsed)));
        CurrentState() == last && err == e
    {
      err := SetStart(false);
      if err.None? {
        err := SetLoad(encoding, parsed);
      }
      err := Conclude(err);
    }

    // The three loops of a Set request.

    method DeleteAll(paths: seq<Pattern>, err0: Option<Error>) returns (err: Option<Error>, result: seq<OpResult>)
      modifies this
      ensures (CurrentState(), err, result) == PerformAll(env, old(CurrentState()), err0, DeleteOps(paths))
    {
      ghost var ops := DeleteOps(paths);
      err, result := err0, [];
      PendingStart(env, CurrentState(), err, ops);
      var i := 0;
      while i < |paths|
        invariant i <= |paths|
        invariant Pending(env, old(CurrentState()), err0, CurrentState(), err, result, ops, i)
      {
        ghost var before, beforeErr, done := CurrentState(), err, result;
        if err.Some? {
          result := result + [OpResult(Delete(paths[i]), Aborted)];
        } else {
          err := SetDelete(paths[i]);
          result := result + [OpResult(Delete(paths[i]), if err.Some? then Failed(err.value) else Done)];
        }
        PendingStep(env, old(CurrentState()), err0, before, beforeErr, done, ops, i, CurrentState(), err);
        i := i + 1;
      }
      PendingEnd(env, old(CurrentState()), err0, CurrentState(), err, result, ops);
    }

    method ReplaceAll(writes: seq<(Pattern, string)>, err0: Option<Error>)
      returns (err: Option<Error>, result: seq<OpResult>)
      modifies this
      ensures (CurrentState(), err, result) == PerformAll(env, old(CurrentState()), err0, ReplaceOps(writes))
    {
      ghost var ops := ReplaceOps(writes);
      err, result := err0, [];
      PendingStart(env, CurrentState(), err, ops);
      var i := 0;
      while i < |writes|
        invariant i <= |writes|
        invariant Pending(env, old(CurrentState()), err0, CurrentState(), err, result, ops, i)
      {
        ghost var before, beforeErr, done := CurrentState(), err, result;
        if err.Some? {
          result := result + [OpResult(Replace(writes[i].0, writes[i].1), Aborted)];
        } else {
          err := SetReplace(writes[i].0, writes[i].1);
          var outcome := if err.Some? then Failed(err.value) else Done;
          result := result + [OpResult(Replace(writes[i].0, writes[i].1), outcome)];
        }
        PendingStep(env, old(CurrentState()), err0, before, beforeErr, done, ops, i, CurrentState(), err);
        i := i + 1;
      }
      PendingEnd(env, old(CurrentState()), err0, CurrentState(), err, result, ops);
    }

    method UpdateAll(writes: seq<(Pattern, string)>, err0: Option<Error>)
      returns (err: Option<Error>, result: seq<OpResult>)
      modifies this
      ensures (CurrentState(), err, result) == PerformAll(env, old(CurrentState()), err0, UpdateOps(writes))
    {
      ghost var ops := UpdateOps(writes);
      err, result := err0, [];
      PendingStart(env, CurrentState(), err, ops);
      var i := 0;
      while i < |writes|
        invariant i <= |writes|
        invariant Pending(env, old(CurrentState()), err0, CurrentState(), err, result, ops, i)
      {
        ghost var before, beforeErr, done := CurrentState(), err, result;
        if err.Some? {
          result := result + [OpResult(Update(writes[i].0, writes[i].1), Aborted)];
        } else {
          err := SetUpdate(writes[i].0, writes[i].1);
          var outcome := if err.Some? then Failed(err.value) else Done;
          result := result + [OpResult(Update(writes[i].0, writes[i].1), outcome)];
        }
        PendingStep(env, old(CurrentState()), err0, before, beforeErr, done, ops, i, CurrentState(), err);
        i := i + 1;
      }
      PendingEnd(env, old(CurrentState()), err0, CurrentState(), err, result, ops);
    }

    /** The Set request: first all deletes, then all replaces, then all updates. */
    method Set(toDelete: seq<Pattern>, toReplace: seq<(Pattern, string)>, toUpdate: seq<(Pattern, string)>)
      returns (result: seq<OpResult>, err: Option<Error>)
      modifies this
      ensures (CurrentState(), err, result) ==
              Transact(env, old(CurrentState()),
                       SetTx(DeleteOps(toDelete) + ReplaceOps(toReplace) + UpdateOps(toUpdate)))
    {
      err := SetStart(false);
      ghost var begun, begunErr := CurrentState(), err;
      var deleted, replaced, updated;
      err, deleted := DeleteAll(toDelete, err);
      err, replaced := ReplaceAll(toReplace, err);
      err, updated := UpdateAll(toUpdate, err);
      PerformAllAppend(env, begun, begunErr, DeleteOps(toDelete), ReplaceOps(toReplace));
      PerformAllAppend(env, begun, begunErr, DeleteOps(toDelete) + ReplaceOps(toReplace), UpdateOps(toUpdate));
      result := deleted + replaced + updated;
      err := Conclude(err);
    }
  }

  function DeleteOps(paths: seq<Pattern>): seq<SetOp> {
    seq(|paths|, i requires 0 <= i < |paths| => Delete(paths[i]))
  }

  function ReplaceOps(writes: seq<(Pattern, string)>): seq<SetOp> {
    seq(|writes|, i requires 0 <= i < |writes| => Replace(writes[i].0, writes[i].1))
  }

  function UpdateOps(writes: seq<(Pattern, string)>): seq<SetOp> {
    seq(|writes|, i requires 0 <= i < |writes| => Update(writes[i].0, writes[i].1))
  }

  /** Working through two lists one after the other is working through their concatenation. */
  lemma {:induction false} PerformAllAppend(env: Env, st: State, err: Option<Error>, a: seq<SetOp>, b: seq<SetOp>)
    ensures var first := PerformAll(env, st, err, a);
      var second := PerformAll(env, first.0, first.1, b);
      PerformAll(env, st, err, a + b) == (second.0, second.1, first.2 + second.2)
    decreases |a|
  {
    if a == [] {
      assert a + b == b;
      assert [] + PerformAll(env, st, err, b).2 == PerformAll(env, st, err, b).2;
    } else {
      assert (a + b)[0] == a[0] && (a + b)[1..] == a[1..] + b;
      var (next, e0) := if err.Some? then (st, err) else Perform(env, st, a[0]);
      PerformAllAppend(env, next, e0, a[1..], b);
      var x := OpResult(a[0], if err.Some? then Aborted else if e0.Some? then Failed(e0.value) else Done);
      var first := PerformAll(env, next, e0, a[1..]);
      var second := PerformAll(env, first.0, first.1, b);
      assert [x] + (first.2 + second.2) == [x] + first.2 + second.2;
    }
  }

  /** The first `n` operations have run and left `st`, `err` and `result`. */
  ghost predicate Pending(env: Env, begun: State, begunErr: Option<Error>, st: State, err: Option<Error>,
                          result: seq<OpResult>, ops: seq<SetOp>, n: nat)
  {
    && n <= |ops|
    && var rest := PerformAll(env, st, err, ops[n..]);
       PerformAll(env, begun, begunErr, ops) == (rest.0, rest.1, result + rest.2)
  }

  lemma PendingStart(env: Env, begun: State, begunErr: Option<Error>, ops: seq<SetOp>)
    ensures Pending(env, begun, begunErr, begun, begunErr, [], ops, 0)
  {
    assert ops[0..] == ops;
    assert [] + PerformAll(env, begun, begunErr, ops).2 == PerformAll(env, begun, begunErr, ops).2;
  }

  lemma PendingEnd(env: Env, begun: State, begunErr: Option<Error>, st: State, err: Option<Error>,
                   result: seq<OpResult>, ops: seq<SetOp>)
    requires Pending(env, begun, begunErr, st, err, result, ops, |ops|)
    ensures PerformAll(env, begun, begunErr, ops) == (st, err, result)
  {
    assert ops[|ops|..] == [];
    assert result + PerformAll(env, st, err, []).2 == result;
  }

  lemma PendingStep(env: Env, begun: State, begunErr: Option<Error>, st: State, err: Option<Error>,
                    result: seq<OpResult>, ops: seq<SetOp>, n: nat, next: State, nextErr: Option<Error>)
    requires n < |ops| && Pending(env, begun, begunErr, st, err, result, ops, n)
    requires (next, nextErr) == if err.Some? then (st, err) else Perform(env, st, ops[n])
    ensures var outcome := if err.Some? then Aborted else if nextErr.Some? then Failed(nextErr.value) else Done;
      Pending(env, begun, begunErr, next, nextErr, result + [OpResult(ops[n], outcome)], ops, n + 1)
  {
    var outcome := if err.Some? then Aborted else if nextErr.Some? then Failed(nextErr.value) else Done;
    var rest := PerformAll(env, next, nextErr, ops[n + 1..]);
    assert ops[n..][0] == ops[n] && ops[n..][1..] == ops[n + 1..];
    assert result + ([OpResult(ops[n], outcome)] + rest.2) == result + [OpResult(ops[n], outcome)] + rest.2;
  }
}
