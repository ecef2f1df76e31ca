/** Which rows a DELETE IGNORE takes away, and which it passes over. */
module IgnoredDeletes {
  import opened Wrappers
  import opened Catalog
  import opened ForeignKeys
  import opened DeleteIntegrity
  import opened DeleteClosure
  import opened DeleteNulls

  /** The database when it is the turn of row `n`: the actions of the rows before it have run, those
      of rows passed over as far as they came. */
  ghost function AtTurn(env: Env, db: Database, table: string, keys: seq<string>, n: nat): Database
    requires n <= |keys|
  {
    if n == 0 then db
    else
      var before := AtTurn(env, db, table, keys, n - 1);
      Actions(env, before, table, {keys[n - 1]}, {}, Universe(before)).db
  }

  /** What stops the actions of row `n`, at its turn: a RESTRICT key, an unknown action, or nothing. */
  ghost function StoppedBy(env: Env, db: Database, table: string, keys: seq<string>, n: nat): Option<Error>
    requires n < |keys|
  {
    var before := AtTurn(env, db, table, keys, n);
    Actions(env, before, table, {keys[n]}, {}, Universe(before)).error
  }

  /** The row is listed, and at its turn nothing stops its actions. */
  ghost predicate LetGo(env: Env, db: Database, table: string, keys: seq<string>, k: string) {
    exists n: nat :: n < |keys| && keys[n] == k && StoppedBy(env, db, table, keys, n).None?
  }

  lemma {:induction false} TurnsOfPrefix(env: Env, db: Database, table: string, keys: seq<string>, m: nat, n: nat)
    requires n <= m <= |keys|
    ensures AtTurn(env, db, table, keys[..m], n) == AtTurn(env, db, table, keys, n)
    ensures n < m ==> StoppedBy(env, db, table, keys[..m], n) == StoppedBy(env, db, table, keys, n)
  {
    hide Actions, Universe;
    if n > 0 { TurnsOfPrefix(env, db, table, keys, m, n - 1); }
  }

  lemma {:induction false} TurnsAreIgnoreActions(env: Env, db: Database, table: string, keys: seq<string>)
    ensures var i := IgnoreActions(env, db, table, keys);
            i.db == AtTurn(env, db, table, keys, |keys|) && forall k :: k in i.deletable <==> LetGo(env, db, table, keys, k)
    decreases |keys|
  {
    hide Actions, Universe;
    if keys != [] {
      var n := |keys| - 1;
      TurnsAreIgnoreActions(env, db, table, keys[..n]);
      TurnsOfPrefix(env, db, table, keys, n, n);
      forall m: nat | m < n ensures StoppedBy(env, db, table, keys[..n], m) == StoppedBy(env, db, table, keys, m) {
        TurnsOfPrefix(env, db, table, keys, n, m);
      }
      var so := IgnoreActions(env, db, table, keys[..n]);
      var o := Actions(env, so.db, table, {keys[n]}, {}, Universe(so.db));
      forall k ensures k in IgnoreActions(env, db, table, keys).deletable <==> LetGo(env, db, table, keys, k) {
        LetGoOneMore(env, db, table, keys, k);
      }
    }
  }

  lemma LetGoOneMore(env: Env, db: Database, table: string, keys: seq<string>, k: string)
    requires keys != []
    ensures var n := |keys| - 1;
            LetGo(env, db, table, keys, k) == (LetGo(env, db, table, keys[..n], k) || (keys[n] == k && StoppedBy(env, db, table, keys, n).None?))
  {
    hide StoppedBy;
    var n := |keys| - 1;
    forall m: nat | m < n ensures StoppedBy(env, db, table, keys[..n], m) == StoppedBy(env, db, table, keys, m) {
      TurnsOfPrefix(env, db, table, keys, n, m);
    }
    if LetGo(env, db, table, keys[..n], k) {
      var m: nat :| m < n && keys[..n][m] == k && StoppedBy(env, db, table, keys[..n], m).None?;
      assert keys[m] == k;
    }
    if LetGo(env, db, table, keys, k) {
      var m: nat :| m < |keys| && keys[m] == k && StoppedBy(env, db, table, keys, m).None?;
      if m < n { assert keys[..n][m] == k; }
    }
  }

  /** On any graph: of the table, exactly the listed rows are gone whose actions nothing stopped at
      their turn, and all others are as they were; every other table is as the actions left it. */
  lemma {:induction false} IgnoredDeleteRemoves(env: Env, db: Database, table: string, keys: seq<string>)
    ensures var after := DeleteIgnoring(env, db, table, keys);
            && (forall k :: k in RowsOf(db, table) ==> (k !in RowsOf(after.db, table) <==> LetGo(env, db, table, keys, k)))
            && (forall k :: k in RowsOf(after.db, table) ==> k in RowsOf(db, table) && RowsOf(after.db, table)[k] == RowsOf(db, table)[k])
            && (forall t :: t != table ==> RowsOf(after.db, t) == RowsOf(AtTurn(env, db, table, keys, |keys|), t))
            && (forall k :: k in after.deletable <==> LetGo(env, db, table, keys, k))
  {
    hide IgnoreActions, LetGo;
    TurnsAreIgnoreActions(env, db, table, keys);
    if keys == [] { NothingIgnored(env, db, table); }
  }

  lemma {:induction false} NothingIgnored(env: Env, db: Database, table: string)
    ensures AtTurn(env, db, table, [], 0) == db && forall k :: !LetGo(env, db, table, [], k)
  {
  }

  // ---------- keys that only forbid ----------

  /** Every key that refers to the table is a RESTRICT key or has an unknown action. */
  ghost predicate OnlyForbidden(schemas: Schemas, table: string) {
    forall ref :: Refers(schemas, ref, table) ==> ref.key.onDelete.Restrict? || ref.key.onDelete.Unsupported?
  }

  /** Some row has a key on row `k`; of a table that refers to itself, some other row. */
  ghost predicate Referred(env: Env, db: Database, table: string, k: string) {
    exists ref, c :: KeyTo(env, db, RowId(table, k), ref, c) && !(EqIgnoreAsciiCase(ref.table, table) && c == k)
  }

  lemma {:induction false} ForbiddenEach(env: Env, refs: seq<Reference>, db: Database, table: string, k: string, visited: set<RowId>,
                                         universe: set<RowId>)
    requires Within(db, universe) && k in RowsOf(db, table)
    requires forall ref :: ref in refs ==> ref.key.onDelete.Restrict? || ref.key.onDelete.Unsupported?
    ensures var parents := Chosen(RowsOf(db, table), {k});
            var o := Each(env, refs, db, table, {k}, parents, visited, universe);
            && o.db == db
            && (o.error.None? <==> forall ref :: ref in refs ==> ChildrenOf(env.lib, ref, table, {k}, parents, RowsOf(db, ref.table)) == {})
    decreases |refs|
  {
    hide ChildrenOf, One, Chosen;
    var parents := Chosen(RowsOf(db, table), {k});
    if refs != [] {
      var o := One(env, refs[0], db, table, {k}, parents, visited, universe);
      OneElsewise(env, refs[0], db, table, {k}, parents, visited, universe);
      assert refs[0] in refs;
      if o.error.None? {
        FewerUnvisited(universe, visited, o.visited);
        ForbiddenEach(env, refs[1..], db, table, k, o.visited, universe);
        assert forall ref :: ref in refs <==> ref == refs[0] || ref in refs[1..];
      }
    }
  }

  lemma ChildrenAreReferring(env: Env, db: Database, table: string, k: string)
    requires k in RowsOf(db, table)
    ensures Referred(env, db, table, k)
       <==> exists ref :: Refers(env.schemas, ref, table) && ChildrenOf(env.lib, ref, table, {k}, Chosen(RowsOf(db, table), {k}), RowsOf(db, ref.table)) != {}
  {
    hide KeyMatches, Refers, EqIgnoreAsciiCase;
    var parents := Chosen(RowsOf(db, table), {k});
    if Referred(env, db, table, k) {
      var ref, c :| KeyTo(env, db, RowId(table, k), ref, c) && !(EqIgnoreAsciiCase(ref.table, table) && c == k);
      assert k in parents && parents[k] == RowsOf(db, table)[k];
      assert c in ChildrenOf(env.lib, ref, table, {k}, parents, RowsOf(db, ref.table));
    }
    if ref :| Refers(env.schemas, ref, table) && ChildrenOf(env.lib, ref, table, {k}, parents, RowsOf(db, ref.table)) != {} {
      var c :| c in ChildrenOf(env.lib, ref, table, {k}, parents, RowsOf(db, ref.table));
      var p :| p in parents && KeyMatches(env.lib, RowsOf(db, ref.table)[c].data, ref.key, parents[p].data);
      assert KeyTo(env, db, RowId(table, k), ref, c);
    }
  }

  lemma {:induction false} ForbiddenActions(env: Env, db: Database, table: string, k: string, universe: set<RowId>)
    requires ValidEnv(env) && OnlyForbidden(env.schemas, table) && Within(db, universe) && k in RowsOf(db, table)
    ensures var o := Actions(env, db, table, {k}, {}, universe);
            o.db == db && (o.error.None? <==> !Referred(env, db, table, k))
  {
    hide Each, ChildrenOf, Refers, References, Referred;
    var parents := Chosen(RowsOf(db, table), {k});
    assert k in parents;
    forall ref { ReferencesAre(env, table, ref); }
    ForbiddenEach(env, References(env, table), db, table, k, {}, universe);
    ChildrenAreReferring(env, db, table, k);
  }

  lemma {:induction false} ForbiddenTurns(env: Env, db: Database, table: string, keys: seq<string>, n: nat)
    requires ValidEnv(env) && OnlyForbidden(env.schemas, table) && n <= |keys| && forall k :: k in keys ==> k in RowsOf(db, table)
    ensures AtTurn(env, db, table, keys, n) == db
    ensures n < |keys| ==> (StoppedBy(env, db, table, keys, n).None? <==> !Referred(env, db, table, keys[n]))
  {
    hide Actions, Universe, Referred, OnlyForbidden;
    if n > 0 {
      ForbiddenTurns(env, db, table, keys, n - 1);
      ForbiddenActions(env, db, table, keys[n - 1], Universe(db));
    }
    if n < |keys| { ForbiddenActions(env, db, table, keys[n], Universe(db)); }
  }

  /** If the keys on the table only forbid: exactly the listed rows are gone that no other row refers
      to, and every other table is as it was. So all of them are gone if no key is on the table. */
  lemma ForbiddenRowsStay(env: Env, db: Database, table: string, keys: seq<string>)
    requires ValidEnv(env) && OnlyForbidden(env.schemas, table) && forall k :: k in keys ==> k in RowsOf(db, table)
    ensures var after := DeleteIgnoring(env, db, table, keys).db;
            && (forall k :: k in RowsOf(db, table) ==> (k in RowsOf(after, table) <==> !(k in keys && !Referred(env, db, table, k))))
            && (forall t :: t != table ==> RowsOf(after, t) == RowsOf(db, t))
  {
    hide DeleteIgnoring, AtTurn, StoppedBy, Referred, OnlyForbidden;
    IgnoredDeleteRemoves(env, db, table, keys);
    ForbiddenTurns(env, db, table, keys, |keys|);
    forall n: nat | n < |keys| ensures StoppedBy(env, db, table, keys, n).None? <==> !Referred(env, db, table, keys[n]) {
      ForbiddenTurns(env, db, table, keys, n);
    }
    forall k ensures LetGo(env, db, table, keys, k) <==> k in keys && !Referred(env, db, table, k) {
      if k in keys && !Referred(env, db, table, k) {
        var n: nat :| n < |keys| && keys[n] == k;
        assert StoppedBy(env, db, table, keys, n).None?;
      }
    }
  }

  /** No key refers to the table: all listed rows are gone, and nothing else is changed. */
  lemma UnreferredRowsGo(env: Env, db: Database, table: string, keys: seq<string>)
    requires ValidEnv(env) && (forall ref :: !Refers(env.schemas, ref, table)) && forall k :: k in keys ==> k in RowsOf(db, table)
    ensures var after := DeleteIgnoring(env, db, table, keys).db;
            && (forall k :: k in RowsOf(db, table) ==> (k in RowsOf(after, table) <==> k !in keys))
            && (forall t :: t != table ==> RowsOf(after, t) == RowsOf(db, t))
  {
    hide DeleteIgnoring, Refers;
    ForbiddenRowsStay(env, db, table, keys);
  }

  // ---------- keys that cascade or set null ----------

  lemma {:induction false} TurnsAreReasoned(env: Env, db: Database, table: string, keys: seq<string>, s: set<RowId>, n: nat)
    requires ValidEnv(env) && Closed(env, db, s) && n <= |keys| && forall k :: k in keys ==> RowId(table, k) in s
    ensures Reasoned(env, db, s, AtTurn(env, db, table, keys, n))
    ensures n < |keys| && StoppedBy(env, db, table, keys, n).Some? ==> Blamed(env, db, s, StoppedBy(env, db, table, keys, n).value)
  {
    hide Actions, Universe, Closed, Reasoned, Blamed;
    if n == 0 {
      NothingIsReasoned(env, db, s);
    } else {
      TurnsAreReasoned(env, db, table, keys, s, n - 1);
      var before := AtTurn(env, db, table, keys, n - 1);
      ActionsAreReasoned(env, db, s, before, table, {keys[n - 1]}, {}, Universe(before));
    }
    if n < |keys| {
      var before := AtTurn(env, db, table, keys, n);
      ActionsAreReasoned(env, db, s, before, table, {keys[n]}, {}, Universe(before));
    }
  }

  /** On any graph: a DELETE IGNORE removes only rows of any closed set around the listed ones and
      nulls columns only for keys on such rows; if only CASCADE and SET NULL keys lead there, all
      listed rows are gone. So a row is passed over only if some RESTRICT or unknown key leads there. */
  lemma IgnoredDeleteIsReasoned(env: Env, db: Database, table: string, keys: seq<string>, s: set<RowId>)
    requires ValidEnv(env) && Closed(env, db, s) && forall k :: k in keys ==> RowId(table, k) in s
    ensures var after := DeleteIgnoring(env, db, table, keys).db;
            Reasoned(env, db, s, after) && (Unrestricted(env, db, s) ==> forall k :: k in keys ==> k !in RowsOf(after, table))
  {
    hide DeleteIgnoring, AtTurn, StoppedBy, Closed, Unrestricted, WornRow, Blamed;
    var after, end := DeleteIgnoring(env, db, table, keys).db, AtTurn(env, db, table, keys, |keys|);
    IgnoredDeleteRemoves(env, db, table, keys);
    TurnsAreReasoned(env, db, table, keys, s, |keys|);
    NothingIsReasoned(env, db, s);
    LetGoAreListed(env, db, table, keys);
    forall t, k | k in RowsOf(db, t) && k !in RowsOf(after, t) ensures RowId(t, k) in s {
      if t != table { assert k !in RowsOf(end, t); }
    }
    if Unrestricted(env, db, s) {
      forall k | k in keys ensures LetGo(env, db, table, keys, k) {
        var n: nat :| n < |keys| && keys[n] == k;
        TurnsAreReasoned(env, db, table, keys, s, n);
        if StoppedBy(env, db, table, keys, n).Some? { BlamedIsRestricted(env, db, s, StoppedBy(env, db, table, keys, n).value); }
      }
    }
  }

  lemma LetGoAreListed(env: Env, db: Database, table: string, keys: seq<string>)
    ensures forall k :: LetGo(env, db, table, keys, k) ==> k in keys
  {
    hide StoppedBy;
  }

  /** On an acyclic graph no row is left that refers to a row that is gone, as it was. */
  lemma IgnoredRowsAreUnreferred(env: Env, db: Database, table: string, keys: seq<string>, rank: string -> nat)
    requires ValidEnv(env) && Ranked(env.schemas, rank) && NullsUnreferenced(env.schemas) && Integrity(env, db)
    ensures var after := DeleteIgnoring(env, db, table, keys).db;
            forall k, ref, c :: k in RowsOf(db, table) && LetGo(env, db, table, keys, k) && Refers(env.schemas, ref, table) && c in RowsOf(after, ref.table)
              ==> !KeyMatches(env.lib, RowsOf(after, ref.table)[c].data, ref.key, RowsOf(db, table)[k].data)
  {
    hide IgnoreActions, LetGo, KeyMatches, Ranked, Integrity, NullsUnreferenced, Refers;
    var i, after := IgnoreActions(env, db, table, keys), DeleteIgnoring(env, db, table, keys).db;
    TurnsAreIgnoreActions(env, db, table, keys);
    IgnoreKeepsIntegrity(env, db, table, keys, rank);
    if keys == [] { NothingIgnored(env, db, table); }
    forall k, ref, c | k in RowsOf(db, table) && LetGo(env, db, table, keys, k) && Refers(env.schemas, ref, table) && c in RowsOf(after, ref.table)
      ensures !KeyMatches(env.lib, RowsOf(after, ref.table)[c].data, ref.key, RowsOf(db, table)[k].data)
    {
      assert k in Chosen(RowsOf(db, table), i.deletable);
      assert c in RowsOf(i.db, ref.table) && RowsOf(i.db, ref.table)[c].data == RowsOf(after, ref.table)[c].data;
    }
  }
}
