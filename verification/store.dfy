/**
 * The snippet store: one owned SQLite database holding the persisted schema
 * version, the `snippets` and `translations` tables, and the operations of
 * database.py on it. Each operation is one atomic step.
 */
module Store {
  import opened Wrappers
  import opened Catalogue
  import opened Schema

  /** The dictionaries the store returns: `{"status": "success", ...}` or `{"status": "error", "message": ...}`. */
  datatype Reply = Success(abbv: Option<string>) | Error(message: string)

  class SnippetStore {
    /** `PRAGMA user_version` */
    var version: int
    var hasSnippets: bool
    var hasTranslations: bool
    /** The rows of `snippets`, in insertion order. */
    var rows: seq<Snippet>
    var translations: TranslationTable

    /** The constraints SQLite enforces: UNIQUE abbv, and a missing table holds no rows. */
    ghost predicate Valid()
      reads this
    {
      && UniqueAbbvs(rows)
      && (!hasSnippets ==> rows == [])
      && (!hasTranslations ==> translations == map[])
    }

    /** The part of the state that migrations act on. */
    function CurrentTables(): Schema.Tables
      reads this
    {
      Schema.Tables(hasSnippets, hasTranslations, translations)
    }

    /** A new, empty database file: version 0 and no tables. */
    constructor ()
      ensures Valid()
      ensures version == 0 && CurrentTables() == SchemaAt(0) && rows == []
    {
      version := 0;
      hasSnippets := false;
      hasTranslations := false;
      rows := [];
      translations := map[];
    }

    /** Runs one migration body; a failing statement leaves every table as it was. */
    method ApplyMigration(m: Migration) returns (ok: bool)
      requires Valid()
      modifies this
      ensures Valid()
      ensures ok == Apply(m, old(CurrentTables())).Some?
      ensures CurrentTables() == if ok then Apply(m, old(CurrentTables())).value else old(CurrentTables())
      ensures version == old(version) && rows == old(rows)
    {
      var next := Apply(m, CurrentTables());
      ok := next.Some?;
      if ok {
        hasSnippets := next.value.snippets;
        hasTranslations := next.value.translations;
        translations := next.value.translationRows;
      }
    }

    /**
     * `run_migrations`: reads the version, and when it is below the latest,
     * applies each later migration in ascending order (ApplyPending).
     */
    method RunMigrations() returns (ok: bool, ghost applied: seq<int>)
      requires Valid()
      modifies this
      ensures Valid() && rows == old(rows)
      ensures Migrate(old(version), old(CurrentTables())) == Outcome(ok, version, CurrentTables(), applied)
    {
      var current := version;
      var latest := LatestVersion();
      if current < latest {
        ok, applied := ApplyPending(current, SortedVersions());
      } else {
        ok, applied := true, [];
      }
    }

    /**
     * The loop of `run_migrations` over `versions` (the sorted migration keys):
     * for each version above `current`, run its body and then write the version; a failing body
     * ends the run (the exception propagates) before its version is written.
     */
    method ApplyPending(current: int, versions: seq<int>) returns (ok: bool, ghost applied: seq<int>)
      requires Valid() && version == current
      requires forall v :: v in versions ==> v in Migrations
      modifies this
      ensures Valid() && rows == old(rows)
      ensures RunLoop(current, versions, current, old(CurrentTables())) == Outcome(ok, version, CurrentTables(), applied)
    {
      ghost var whole := RunLoop(current, versions, current, CurrentTables());
      applied := [];
      var i := 0;
      assert versions[i..] == versions;
      assert whole.applied == [] + whole.applied;
      while i < |versions|
        invariant 0 <= i <= |versions|
        invariant Valid() && rows == old(rows)
        invariant Resumes(whole, current, versions[i..], version, CurrentTables(), applied)
      {
        var v := versions[i];
        assert versions[i..][1..] == versions[i + 1..];
        if v > current {
          ghost var before := CurrentTables();
          var success := ApplyMigration(Migrations[v]);
          if !success {
            ResumesFailed(whole, current, versions[i..], version, before, applied);
            ok := false;
            return;
          }
          ResumesApplied(whole, current, versions[i..], version, before, applied, CurrentTables());
          version := v;
          applied := applied + [v];
        } else {
          ResumesSkipped(whole, current, versions[i..], version, CurrentTables(), applied);
        }
        i := i + 1;
      }
      assert versions[i..] == [];
      assert applied + [] == applied;
      ok := true;
    }

    /**
     * `get_and_increment_snippet`: the value of the row with `abbv`, whose
     * count goes up by exactly one; `None`, and no change, when there is none.
     */
    method GetAndIncrementSnippet(abbv: string) returns (value: Option<string>)
      requires Valid() && hasSnippets
      modifies this`rows
      ensures Valid()
      ensures value == if Lookup(old(rows), abbv).Some? then Some(Lookup(old(rows), abbv).value.value) else None
      ensures rows == if value.Some? then BumpWhere(old(rows), abbv, None) else old(rows)
      ensures forall k :: Lookup(rows, k) == if k == abbv then Bumped(Lookup(old(rows), k), None) else Lookup(old(rows), k)
    {
      var row := Lookup(rows, abbv);
      value := None;
      if row.Some? {
        value := Some(row.value.value);
        forall k {
          BumpWhereLookup(rows, abbv, None, k);
        }
        rows := BumpWhere(rows, abbv, None);
      }
    }

    /** `add_or_update_snippet`: the upsert; it always reports success with the abbreviation. */
    method AddOrUpdateSnippet(abbv: string, value: string) returns (reply: Reply)
      requires Valid() && hasSnippets
      modifies this`rows
      ensures Valid()
      ensures rows == UpsertRows(old(rows), abbv, value)
      ensures reply == Success(Some(abbv))
    {
      rows := UpsertRows(rows, abbv, value);
      reply := Success(Some(abbv));
    }

    /** `delete_snippet`: removes the row of `abbv` if any; success either way. */
    method DeleteSnippet(abbv: string) returns (reply: Reply)
      requires Valid() && hasSnippets
      modifies this`rows
      ensures Valid()
      ensures rows == DeleteRows(old(rows), abbv)
      ensures reply == Success(None)
    {
      DeleteRowsUnique(rows, abbv);
      rows := DeleteRows(rows, abbv);
      reply := Success(None);
    }

    /** `reset_usage_counts`: every count to zero. */
    method ResetUsageCounts() returns (reply: Reply)
      requires Valid() && hasSnippets
      modifies this`rows
      ensures Valid()
      ensures rows == ResetRows(old(rows))
      ensures reply == Success(None)
    {
      rows := ResetRows(rows);
      reply := Success(None);
    }
  }
}
