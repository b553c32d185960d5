/** Nested transactions over SQLite savepoints (packages/db/src/node-sqlite.ts): a depth
    counter chooses between BEGIN and SAVEPOINT, and rolls back with ROLLBACK TO, which
    leaves its savepoint on SQLite's stack. */
module NestedTransactions {
  import opened Basics

  // ---------------------------------------------------------------- callbacks

  /** Whether the statement that opens or ends a transaction fails. */
  datatype Fault = NoFault | StartFails | EndFails

  /** What a transaction callback does, step by step. `Call` runs another transaction on
      the same connection; an error it throws ends the callback unless a `Try` catches it. */
  datatype Callback<!Db> =
    | Return
    | Throw
    | Write(change: Db -> Db, next: Callback<Db>)
    | Branch(test: Db -> bool, yes: Callback<Db>, no: Callback<Db>)
    | Call(fault: Fault, body: Callback<Db>, next: Callback<Db>)
    | Try(guarded: Callback<Db>, next: Callback<Db>)

  datatype Outcome<Db> = Outcome(data: Db, threw: bool)

  /** The intended meaning: a call that fails restores the contents at its entry, a call
      that succeeds keeps its writes. No stack, no names, no depth. */
  function Meaning<Db>(p: Callback<Db>, data: Db): Outcome<Db>
    decreases p, 0
  {
    match p
    case Return => Outcome(data, false)
    case Throw => Outcome(data, true)
    case Write(change, next) => Meaning(next, change(data))
    case Branch(test, yes, no) => if test(data) then Meaning(yes, data) else Meaning(no, data)
    case Call(fault, body, next) =>
      var called := CallMeaning(fault, body, data);
      if called.threw then called else Meaning(next, called.data)
    case Try(guarded, next) => Meaning(next, Meaning(guarded, data).data)
  }

  function CallMeaning<Db>(fault: Fault, body: Callback<Db>, data: Db): Outcome<Db>
    decreases body, 1
  {
    if fault.StartFails? then Outcome(data, true)
    else
      var ran := Meaning(body, data);
      if ran.threw || fault.EndFails? then Outcome(data, true) else ran
  }

  // ---------------------------------------------------------------- SQLite

  /** One entry of SQLite's stack: BEGIN has no name, a savepoint does. */
  datatype Frame<Db> = Frame(name: Option<string>, snapshot: Db)

  /** The most recent savepoint with this name: names may repeat. */
  function Newest<Db>(frames: seq<Frame<Db>>, name: string): (i: Option<nat>)
    ensures i.Some? ==> i.value < |frames| && frames[i.value].name == Some(name)
    ensures i.Some? ==> forall j :: i.value < j < |frames| ==> frames[j].name != Some(name)
    ensures i.None? ==> forall j :: 0 <= j < |frames| ==> frames[j].name != Some(name)
  {
    if frames == [] then None
    else if frames[|frames| - 1].name == Some(name) then Some(|frames| - 1)
    else Newest(frames[..|frames| - 1], name)
  }

  /** SQLite's documented transaction statements. `fails` is an error the engine may
      raise for reasons of its own; a failing statement changes nothing. */
  class Sqlite<Db> {
    var data: Db
    var frames: seq<Frame<Db>>

    constructor (data: Db)
      ensures this.data == data && frames == []
    {
      this.data, frames := data, [];
    }

    method Begin(fails: bool) returns (ok: bool)
      modifies this`frames
      ensures ok <==> !fails && old(frames) == []
      ensures frames == if ok then [Frame(None, data)] else old(frames)
    {
      ok := !fails && frames == [];
      if ok {
        frames := [Frame(None, data)];
      }
    }

    method Savepoint(name: string, fails: bool) returns (ok: bool)
      modifies this`frames
      ensures ok <==> !fails
      ensures frames == old(frames) + if ok then [Frame(Some(name), data)] else []
    {
      ok := !fails;
      if ok {
        frames := frames + [Frame(Some(name), data)];
      }
    }

    /** Removes the newest savepoint of that name and everything above it. */
    method Release(name: string, fails: bool) returns (ok: bool)
      modifies this`frames
      ensures ok <==> !fails && Newest(old(frames), name).Some?
      ensures frames == if ok then old(frames)[..Newest(old(frames), name).value] else old(frames)
    {
      var i := Newest(frames, name);
      ok := !fails && i.Some?;
      if ok {
        frames := frames[..i.value];
      }
    }

    /** Restores the newest savepoint of that name and removes everything above it; the
        savepoint itself stays. */
    method RollbackTo(name: string) returns (ok: bool)
      modifies this
      ensures ok <==> Newest(old(frames), name).Some?
      ensures ok ==> data == old(frames)[Newest(old(frames), name).value].snapshot
      ensures ok ==> frames == old(frames)[..Newest(old(frames), name).value + 1]
      ensures !ok ==> data == old(data) && frames == old(frames)
    {
      var i := Newest(frames, name);
      ok := i.Some?;
      if ok {
        data, frames := frames[i.value].snapshot, frames[..i.value + 1];
      }
    }

    method Commit(fails: bool) returns (ok: bool)
      modifies this`frames
      ensures ok <==> !fails && old(frames) != []
      ensures frames == if ok then [] else old(frames)
    {
      ok := !fails && frames != [];
      if ok {
        frames := [];
      }
    }

    method Rollback() returns (ok: bool)
      modifies this
      ensures ok <==> old(frames) != []
      ensures ok ==> data == old(frames)[0].snapshot && frames == []
      ensures !ok ==> data == old(data) && frames == old(frames)
    {
      ok := frames != [];
      if ok {
        data, frames := frames[0].snapshot, [];
      }
    }
  }

  // ---------------------------------------------------------------- what is left behind

  function SavepointName(depth: nat): string {
    "_oa_sp_" + Decimal(depth)
  }

  lemma SavepointNamesDiffer(d: nat, e: nat)
    requires d != e
    ensures SavepointName(d) != SavepointName(e)
  {
    if SavepointName(d) == SavepointName(e) {
      var prefix := |"_oa_sp_"|;
      assert Decimal(d) == SavepointName(d)[prefix..] == SavepointName(e)[prefix..] == Decimal(e);
      NumeralInjective(d, e, 10);
    }
  }

  /** The dead savepoints a callback running at `depth` leaves above its own frame: one
      for each call that failed after it had started, with the contents at its entry. */
  function Leftovers<Db>(p: Callback<Db>, data: Db, depth: nat): seq<Frame<Db>> {
    match p
    case Return => []
    case Throw => []
    case Write(change, next) => Leftovers(next, change(data), depth)
    case Branch(test, yes, no) => if test(data) then Leftovers(yes, data, depth) else Leftovers(no, data, depth)
    case Call(fault, body, next) =>
      var called := CallMeaning(fault, body, data);
      if called.threw then CallLeftovers(fault, body, data, depth) else Leftovers(next, called.data, depth)
    case Try(guarded, next) =>
      Leftovers(guarded, data, depth) + Leftovers(next, Meaning(guarded, data).data, depth)
  }

  function CallLeftovers<Db>(fault: Fault, body: Callback<Db>, data: Db, depth: nat): seq<Frame<Db>> {
    if depth > 0 && !fault.StartFails? && CallMeaning(fault, body, data).threw
    then [Frame(Some(SavepointName(depth)), data)] else []
  }

  /** Everything left above a frame at `depth` carries that depth's own savepoint name. */
  lemma {:induction false} LeftoversShareOneName<Db>(p: Callback<Db>, data: Db, depth: nat)
    ensures forall f :: f in Leftovers(p, data, depth) ==> f.name == Some(SavepointName(depth))
  {
    match p
    case Return =>
    case Throw =>
    case Write(change, next) => LeftoversShareOneName(next, change(data), depth);
    case Branch(test, yes, no) =>
      LeftoversShareOneName(yes, data, depth);
      LeftoversShareOneName(no, data, depth);
    case Call(fault, body, next) =>
      LeftoversShareOneName(next, CallMeaning(fault, body, data).data, depth);
    case Try(guarded, next) =>
      LeftoversShareOneName(guarded, data, depth);
      LeftoversShareOneName(next, Meaning(guarded, data).data, depth);
  }

  /** So the newest savepoint with the caller's name is the caller's own frame. */
  lemma NewestIsOwnFrame<Db>(below: seq<Frame<Db>>, own: Frame<Db>, p: Callback<Db>, data: Db, depth: nat)
    requires own.name == Some(SavepointName(depth))
    ensures Newest(below + [own] + Leftovers(p, data, depth + 1), SavepointName(depth)) == Some(|below|)
  {
    LeftoversShareOneName(p, data, depth + 1);
    SavepointNamesDiffer(depth, depth + 1);
    var dead := Leftovers(p, data, depth + 1);
    var frames := below + [own] + dead;
    assert frames[|below|] == own;
    forall j | |below| < j < |frames|
      ensures frames[j].name != Some(SavepointName(depth))
    {
      assert frames[j] == dead[j - |below| - 1];
    }
  }

  /** `n` nested calls that throw and are caught, one after the other. */
  function FailAndCatch<Db>(n: nat): Callback<Db> {
    if n == 0 then Return else Try(Call(NoFault, Throw, Return), FailAndCatch(n - 1))
  }

  /** SQLite's stack and the depth counter can disagree by any amount. */
  lemma {:induction false} StackOutgrowsDepth<Db>(n: nat, data: Db, depth: nat)
    requires depth > 0
    ensures |Leftovers(FailAndCatch<Db>(n), data, depth)| == n
    ensures Meaning(FailAndCatch<Db>(n), data) == Outcome(data, false)
  {
    if n == 0 {
    } else {
      StackOutgrowsDepth(n - 1, data, depth);
    }
  }

  // ---------------------------------------------------------------- the wrapper

  class Database<Db> {
    const db: Sqlite<Db>
    var depth: nat

    constructor (data: Db)
      ensures fresh(db) && db.data == data && Consistent() && depth == 0
    {
      var engine := new Sqlite(data);
      db := engine;
      depth := 0;
    }

    predicate InTransaction()
      reads this
    {
      depth > 0
    }

    /** The wrapper's idea of being in a transaction is SQLite's. */
    ghost predicate Consistent()
      reads this, db
    {
      InTransaction() <==> db.frames != []
    }

    /** `transaction(fn)(...)`. The contents follow the intended meaning, the depth is
        restored on every exit, and the only trace of a failed nested call is one dead
        savepoint. */
    method Transaction(fault: Fault, body: Callback<Db>) returns (threw: bool)
      requires Consistent()
      modifies this`depth, db
      ensures Consistent() && depth == old(depth)
      ensures Outcome(db.data, threw) == CallMeaning(fault, body, old(db.data))
      ensures db.frames == old(db.frames) + CallLeftovers(fault, body, old(db.data), depth)
      decreases body, 1
    {
      ghost var below, data, own := db.frames, db.data, Frame(Some(SavepointName(depth)), db.data);
      var nested := depth > 0;
      var savepoint := SavepointName(depth);
      var ok;
      if nested {
        ok := db.Savepoint(savepoint, fault.StartFails?);
      } else {
        ok := db.Begin(fault.StartFails?);
      }
      if !ok {
        return true;
      }
      depth := depth + 1;
      threw := RunCallback(body);
      if nested {
        NewestIsOwnFrame(below, own, body, data, depth - 1);
        assert db.frames[..|below|] == below && db.frames[..|below| + 1] == below + [own];
      }
      if !threw {
        if nested {
          ok := db.Release(savepoint, fault.EndFails?);
        } else {
          ok := db.Commit(fault.EndFails?);
        }
        if ok {
          depth := depth - 1;
          return false;
        }
      }
      if nested {
        ok := db.RollbackTo(savepoint);
      } else {
        ok := db.Rollback();
      }
      assert ok;
      depth := depth - 1;
      threw := true;
    }

    /** The callback itself, with this connection in its hands. */
    method RunCallback(p: Callback<Db>) returns (threw: bool)
      requires Consistent() && InTransaction()
      modifies this`depth, db
      ensures Consistent() && depth == old(depth)
      ensures Outcome(db.data, threw) == Meaning(p, old(db.data))
      ensures db.frames == old(db.frames) + Leftovers(p, old(db.data), depth)
      decreases p, 0
    {
      match p
      case Return => threw := false;
      case Throw => threw := true;
      case Write(change, next) =>
        db.data := change(db.data);
        threw := RunCallback(next);
      case Branch(test, yes, no) =>
        if test(db.data) {
          threw := RunCallback(yes);
        } else {
          threw := RunCallback(no);
        }
      case Call(fault, body, next) =>
        threw := Transaction(fault, body);
        if !threw {
          threw := RunCallback(next);
        }
      case Try(guarded, next) =>
        var caught := RunCallback(guarded);
        threw := RunCallback(next);
    }
  }
}
