/**
 * The migration map of the snippet store and what `run_migrations` does with
 * it, as a function of the persisted version (`PRAGMA user_version`) and the
 * tables present. Each migration body is one SQL statement, so it either
 * takes full effect or fails with no effect.
 */
module Schema {
  import opened Wrappers
  import opened Catalogue

  /** The three migration bodies. */
  datatype Migration =
    | CreateSnippets      // CREATE TABLE snippets (...)
    | CreateTranslations  // CREATE TABLE translations (..., PRIMARY KEY (key, lang))
    | SeedEnglish         // INSERT INTO translations ... nine 'en' rows

  /** The `migrations` dictionary: version number to body. */
  const Migrations: map<int, Migration> := map[1 := CreateSnippets, 2 := CreateTranslations, 3 := SeedEnglish]

  /** Version 1 creates `snippets`, version 2 creates `translations`, version 3 seeds them; there is no other version. */
  lemma MigrationBodies()
    ensures Migrations.Keys == {1, 2, 3}
    ensures Migrations[1] == CreateSnippets && Migrations[2] == CreateTranslations && Migrations[3] == SeedEnglish
  {
  }

  predicate StrictlyIncreasing(s: seq<int>) {
    forall i, j :: 0 <= i < j < |s| ==> s[i] < s[j]
  }

  /** `sorted(migrations.keys())` */
  function SortedVersions(): (vs: seq<int>)
    ensures StrictlyIncreasing(vs)
    ensures forall v :: v in vs <==> v in Migrations
  {
    [1, 2, 3]
  }

  /** `max(migrations.keys()) if migrations else 0` */
  function LatestVersion(): (v: int)
    ensures Migrations == map[] ==> v == 0
    ensures Migrations != map[] ==> v in Migrations && forall k :: k in Migrations ==> k <= v
  {
    var vs := SortedVersions();
    assert vs[0] in Migrations;
    if |vs| == 0 then 0 else vs[|vs| - 1]
  }

  /** The `translations` rows the third migration inserts, all with lang 'en'. */
  function SeedTable(): (t: TranslationTable)
    ensures forall p :: p in t ==> p.1 == "en"
    ensures ("app_title", "en") in t && t[("app_title", "en")] == "Tylex Snippets"
  {
    map[
      ("app_title", "en") := "Tylex Snippets",
      ("search_placeholder", "en") := "Search snippets...",
      ("settings_title", "en") := "Tylex Settings & Snippets",
      ("manage_snippets", "en") := "Manage Snippets",
      ("add_new_snippet", "en") := "Add New Snippet",
      ("abbreviation_label", "en") := "Abbreviation:",
      ("expansion_label", "en") := "Expansion Text:",
      ("save_button", "en") := "Save Snippet",
      ("delete_button", "en") := "Delete"
    ]
  }

  /** Which tables exist, and the contents of `translations` (migrations never touch snippet rows). */
  datatype Tables = Tables(snippets: bool, translations: bool, translationRows: TranslationTable)

  /**
   * One migration body against the current tables. CREATE TABLE fails when the
   * table exists; the INSERT fails when `translations` is missing or when one of
   * its (key, lang) pairs is already present (the primary key).
   */
  function Apply(m: Migration, t: Tables): (r: Option<Tables>)
    ensures m.CreateSnippets? ==> (r.None? <==> t.snippets)
    ensures m.CreateTranslations? ==> (r.None? <==> t.translations)
    ensures m.SeedEnglish? ==> (r.None? <==> !t.translations || SeedTable().Keys * t.translationRows.Keys != {})
    ensures r.Some? ==>
      && r.value.snippets == (t.snippets || m.CreateSnippets?)
      && r.value.translations == (t.translations || m.CreateTranslations?)
    ensures r.Some? && m.CreateTranslations? ==> r.value.translationRows == map[]
    ensures r.Some? && m.CreateSnippets? ==> r.value.translationRows == t.translationRows
  {
    match m
    case CreateSnippets =>
      if t.snippets then None else Some(t.(snippets := true))
    case CreateTranslations =>
      if t.translations then None else Some(t.(translations := true, translationRows := map[]))
    case SeedEnglish =>
      if !t.translations || SeedTable().Keys * t.translationRows.Keys != {} then None
      else Some(t.(translationRows := t.translationRows + SeedTable()))
  }

  /**
   * The seed INSERT fails exactly when `translations` is missing or already
   * holds one of the nine (key, lang) pairs; otherwise it adds the nine rows
   * and keeps every existing one.
   */
  lemma SeedOutcome(t: Tables)
    ensures var r := Apply(SeedEnglish, t);
      && (r.None? <==> !t.translations || exists p :: p in SeedTable() && p in t.translationRows)
      && (r.Some? ==>
        && r.value.translationRows.Keys == t.translationRows.Keys + SeedTable().Keys
        && (forall p :: p in t.translationRows ==> r.value.translationRows[p] == t.translationRows[p])
        && (forall p :: p in SeedTable() ==> r.value.translationRows[p] == SeedTable()[p]))
  {
    KeysOverlap(SeedTable(), t.translationRows);
  }

  /** Two tables share a primary key exactly when their key sets intersect. */
  lemma KeysOverlap(a: TranslationTable, b: TranslationTable)
    ensures a.Keys * b.Keys != {} <==> exists p :: p in a && p in b
  {
    if a.Keys * b.Keys != {} {
      var p :| p in a.Keys * b.Keys;
      assert p in a && p in b;
    } else {
      forall p | p in a ensures p !in b {
        assert p !in a.Keys * b.Keys;
      }
    }
  }

  /** The schema a store has when every migration up to `version` has been applied to an empty file. */
  function SchemaAt(version: int): Tables {
    Tables(version >= 1, version >= 2, if version >= 3 then SeedTable() else map[])
  }

  /** The versions of `vs` greater than `current`, in the order of `vs`. */
  function PendingIn(vs: seq<int>, current: int): (r: seq<int>)
    ensures forall v :: v in r <==> v in vs && v > current
    ensures StrictlyIncreasing(vs) ==> StrictlyIncreasing(r)
  {
    if |vs| == 0 then []
    else
      var tail := PendingIn(vs[1..], current);
      if vs[0] > current then
        var r := [vs[0]] + tail;
        assert StrictlyIncreasing(vs) ==> StrictlyIncreasing(r) by {
          if StrictlyIncreasing(vs) {
            forall j | 0 < j < |r| ensures r[0] < r[j] {
              assert r[j] in vs[1..];
              var k :| 0 <= k < |vs[1..]| && vs[1..][k] == r[j];
              assert vs[k + 1] == r[j];
            }
          }
        }
        r
      else tail
  }

  /** The migrations `run_migrations` applies to a store at `current`: every later version, in ascending order. */
  function Pending(current: int): (r: seq<int>)
    ensures StrictlyIncreasing(r)
    ensures forall v :: v in r <==> v in Migrations && v > current
  {
    PendingIn(SortedVersions(), current)
  }

  /** The result of a migration run: whether it completed, the version and tables it left, and the versions applied. */
  datatype Outcome = Outcome(ok: bool, version: int, tables: Tables, applied: seq<int>)

  /**
   * `for version in vs: if version > current: <body>; PRAGMA user_version = version`:
   * the first failing body ends the run with the version of the last body that succeeded.
   */
  function RunLoop(current: int, vs: seq<int>, version: int, t: Tables): (r: Outcome)
    requires forall v :: v in vs ==> v in Migrations
    ensures |r.applied| <= |vs|
    ensures r.applied == [] ==> r.version == version && r.tables == t
  {
    if |vs| == 0 then Outcome(true, version, t, [])
    else if vs[0] > current then
      match Apply(Migrations[vs[0]], t)
      case None => Outcome(false, version, t, [])
      case Some(next) =>
        var o := RunLoop(current, vs[1..], vs[0], next);
        o.(applied := [vs[0]] + o.applied)
    else RunLoop(current, vs[1..], version, t)
  }

  /**
   * The migration bodies of `vs` run one after another from `t`; `None` as
   * soon as one of them fails.
   */
  function ApplyAll(vs: seq<int>, t: Tables): Option<Tables>
    requires forall i :: 0 <= i < |vs| ==> vs[i] in Migrations
  {
    if |vs| == 0 then Some(t)
    else
      match Apply(Migrations[vs[0]], t)
      case None => None
      case Some(next) => ApplyAll(vs[1..], next)
  }

  /** Running the bodies of `a + b` is running those of `a`, then those of `b`. */
  lemma {:induction false} ApplyAllAppend(a: seq<int>, b: seq<int>, t: Tables)
    requires forall i :: 0 <= i < |a| ==> a[i] in Migrations
    requires forall i :: 0 <= i < |b| ==> b[i] in Migrations
    ensures var first := ApplyAll(a, t);
      ApplyAll(a + b, t) == if first.None? then None else ApplyAll(b, first.value)
  {
    if |a| == 0 {
      assert a + b == b;
    } else {
      assert (a + b)[0] == a[0] && (a + b)[1..] == a[1..] + b;
      match Apply(Migrations[a[0]], t)
      case None =>
      case Some(next) =>
        ApplyAllAppend(a[1..], b, next);
    }
  }

  function Last(s: seq<int>): int
    requires |s| > 0
  {
    s[|s| - 1]
  }

  /** One applied step of the loop. */
  lemma RunLoopApplied(current: int, vs: seq<int>, version: int, t: Tables, next: Tables)
    requires forall v :: v in vs ==> v in Migrations
    requires |vs| > 0 && vs[0] > current && Apply(Migrations[vs[0]], t) == Some(next)
    ensures var o := RunLoop(current, vs[1..], vs[0], next);
      RunLoop(current, vs, version, t) == o.(applied := [vs[0]] + o.applied)
  {
  }

  /** A failing step ends the loop with the version and tables it had. */
  lemma RunLoopFailed(current: int, vs: seq<int>, version: int, t: Tables)
    requires forall v :: v in vs ==> v in Migrations
    requires |vs| > 0 && vs[0] > current && Apply(Migrations[vs[0]], t).None?
    ensures RunLoop(current, vs, version, t) == Outcome(false, version, t, [])
  {
  }

  /** One skipped step of the loop. */
  lemma RunLoopSkipped(current: int, vs: seq<int>, version: int, t: Tables)
    requires forall v :: v in vs ==> v in Migrations
    requires |vs| > 0 && vs[0] <= current
    ensures RunLoop(current, vs, version, t) == RunLoop(current, vs[1..], version, t)
  {
  }

  /**
   * A run over the whole list whose outcome is `whole` has reached `rest`
   * with `version` and `t`, having applied `applied` so far.
   */
  ghost predicate Resumes(whole: Outcome, current: int, rest: seq<int>, version: int, t: Tables, applied: seq<int>)
    requires forall v :: v in rest ==> v in Migrations
  {
    var o := RunLoop(current, rest, version, t);
    whole == o.(applied := applied + o.applied)
  }

  /** A successful step of the loop moves the resumption point past it. */
  lemma ResumesApplied(whole: Outcome, current: int, rest: seq<int>, version: int, t: Tables, applied: seq<int>, next: Tables)
    requires forall v :: v in rest ==> v in Migrations
    requires |rest| > 0 && rest[0] > current && Apply(Migrations[rest[0]], t) == Some(next)
    requires Resumes(whole, current, rest, version, t, applied)
    ensures Resumes(whole, current, rest[1..], rest[0], next, applied + [rest[0]])
  {
    RunLoopApplied(current, rest, version, t, next);
    var o := RunLoop(current, rest[1..], rest[0], next);
    assert applied + ([rest[0]] + o.applied) == (applied + [rest[0]]) + o.applied;
  }

  /** A skipped version moves the resumption point past it. */
  lemma ResumesSkipped(whole: Outcome, current: int, rest: seq<int>, version: int, t: Tables, applied: seq<int>)
    requires forall v :: v in rest ==> v in Migrations
    requires |rest| > 0 && rest[0] <= current
    requires Resumes(whole, current, rest, version, t, applied)
    ensures Resumes(whole, current, rest[1..], version, t, applied)
  {
    RunLoopSkipped(current, rest, version, t);
  }

  /** A failing step ends the run where it stands. */
  lemma ResumesFailed(whole: Outcome, current: int, rest: seq<int>, version: int, t: Tables, applied: seq<int>)
    requires forall v :: v in rest ==> v in Migrations
    requires |rest| > 0 && rest[0] > current && Apply(Migrations[rest[0]], t).None?
    requires Resumes(whole, current, rest, version, t, applied)
    ensures whole == Outcome(false, version, t, applied)
  {
    RunLoopFailed(current, rest, version, t);
    assert applied + [] == applied;
  }

  /**
   * The loop applies a prefix of the pending versions, all of them if it
   * completes, and leaves the persisted version at the last one it applied.
   */
  lemma {:induction false} RunLoopTrace(current: int, vs: seq<int>, version: int, t: Tables)
    requires forall v :: v in vs ==> v in Migrations
    ensures var o := RunLoop(current, vs, version, t);
      var p := PendingIn(vs, current);
      && |o.applied| <= |p| && o.applied == p[..|o.applied|]
      && (o.ok <==> |o.applied| == |p|)
      && o.version == if o.applied == [] then version else Last(o.applied)
  {
    if |vs| > 0 {
      if vs[0] > current {
        match Apply(Migrations[vs[0]], t)
        case None =>
        case Some(next) =>
          RunLoopTrace(current, vs[1..], vs[0], next);
      } else {
        RunLoopTrace(current, vs[1..], version, t);
      }
    }
  }

  /**
   * What the loop did to the tables: they are exactly the result of running
   * the applied bodies in order from the starting tables; and a run that
   * stops early stops at the first pending version not applied, whose body
   * fails on the tables left by the ones before it.
   */
  lemma {:induction false} RunLoopEffect(current: int, vs: seq<int>, version: int, t: Tables)
    requires forall v :: v in vs ==> v in Migrations
    ensures var o := RunLoop(current, vs, version, t);
      var p := PendingIn(vs, current);
      && (forall i :: 0 <= i < |o.applied| ==> o.applied[i] in Migrations)
      && ApplyAll(o.applied, t) == Some(o.tables)
      && (!o.ok ==> |o.applied| < |p| && Apply(Migrations[p[|o.applied|]], o.tables).None?)
  {
    if |vs| > 0 {
      var p := PendingIn(vs, current);
      var rest := PendingIn(vs[1..], current);
      if vs[0] > current {
        assert p == [vs[0]] + rest;
        match Apply(Migrations[vs[0]], t)
        case None =>
        case Some(next) =>
          RunLoopEffect(current, vs[1..], vs[0], next);
          var o' := RunLoop(current, vs[1..], vs[0], next);
          var applied := [vs[0]] + o'.applied;
          assert applied[0] == vs[0] && applied[1..] == o'.applied;
          assert !o'.ok ==> p[|applied|] == rest[|o'.applied|];
      } else {
        RunLoopEffect(current, vs[1..], version, t);
      }
    }
  }

  /** The last pending version is the latest one. */
  lemma LastPendingIsLatest(current: int)
    requires current < LatestVersion()
    ensures |Pending(current)| > 0 && Last(Pending(current)) == LatestVersion()
  {
    var p := Pending(current);
    var latest := LatestVersion();
    assert latest in p;
    var l := Last(p);
    assert l in p;
    var i :| 0 <= i < |p| && p[i] == latest;
    assert i == |p| - 1 || p[i] < p[|p| - 1];
  }

  /**
   * `run_migrations`: a no-op when the version is already the latest or newer;
   * otherwise it applies the pending migrations in ascending order, never
   * skipping one, advancing the version to each as it succeeds. The tables it
   * leaves are those the applied bodies produce in order. A failing body ends
   * the run before that version is written: the run stops at the first pending
   * version whose body fails. A completed run ends at the latest version.
   */
  function Migrate(version: int, t: Tables): (o: Outcome)
    ensures |o.applied| <= |Pending(version)| && o.applied == Pending(version)[..|o.applied|]
    ensures o.ok <==> o.applied == Pending(version)
    ensures o.version == if o.applied == [] then version else Last(o.applied)
    ensures o.ok ==> o.version == if version < LatestVersion() then LatestVersion() else version
    ensures version >= LatestVersion() ==> o == Outcome(true, version, t, [])
    ensures forall i :: 0 <= i < |o.applied| ==> o.applied[i] in Migrations
    ensures ApplyAll(o.applied, t) == Some(o.tables)
    ensures !o.ok ==>
      |o.applied| < |Pending(version)| && Apply(Migrations[Pending(version)[|o.applied|]], o.tables).None?
  {
    if version < LatestVersion() then
      MigrateTrace(version, t);
      MigrateEffect(version, t);
      RunLoop(version, SortedVersions(), version, t)
    else
      NothingPending(version);
      Outcome(true, version, t, [])
  }

  /** `RunLoopTrace` for the loop `run_migrations` runs. */
  lemma MigrateTrace(version: int, t: Tables)
    requires version < LatestVersion()
    ensures var o := RunLoop(version, SortedVersions(), version, t);
      && |o.applied| <= |Pending(version)| && o.applied == Pending(version)[..|o.applied|]
      && (o.ok <==> o.applied == Pending(version))
      && o.version == (if o.applied == [] then version else Last(o.applied))
      && (o.ok ==> o.version == LatestVersion())
  {
    RunLoopTrace(version, SortedVersions(), version, t);
    LastPendingIsLatest(version);
  }

  /** `RunLoopEffect` for the loop `run_migrations` runs. */
  lemma MigrateEffect(version: int, t: Tables)
    ensures var o := RunLoop(version, SortedVersions(), version, t);
      && (forall i :: 0 <= i < |o.applied| ==> o.applied[i] in Migrations)
      && ApplyAll(o.applied, t) == Some(o.tables)
      && (!o.ok ==>
            |o.applied| < |Pending(version)| && Apply(Migrations[Pending(version)[|o.applied|]], o.tables).None?)
  {
    RunLoopEffect(version, SortedVersions(), version, t);
  }

  /** At the latest version or beyond, no migration is pending. */
  lemma NothingPending(version: int)
    requires version >= LatestVersion()
    ensures Pending(version) == []
  {
    assert LatestVersion() == 3 && SortedVersions() == [1, 2, 3];
    assert [1, 2, 3][1..] == [2, 3] && [2, 3][1..] == [3] && [3][1..] == [];
    assert PendingIn([], version) == [];
    assert PendingIn([3], version) == [];
    assert PendingIn([2, 3], version) == [];
  }

  /** Migration `k + 1` takes the schema of version `k` to that of version `k + 1`. */
  lemma StepFromConsistent(k: nat)
    requires k < 3
    ensures k + 1 in Migrations && Apply(Migrations[k + 1], SchemaAt(k)) == Some(SchemaAt(k + 1))
  {
    if k == 2 {
      var empty: TranslationTable := map[];
      assert empty + SeedTable() == SeedTable();
    }
  }

  /**
   * From the schema of version `k`, the remaining versions apply one after the
   * other and end at the latest schema.
   */
  lemma {:induction false} RunFromConsistent(current: int, k: nat, version: int)
    requires k <= 3 && current <= k
    requires k > 0 ==> version == k
    ensures RunLoop(current, SortedVersions()[k..], version, SchemaAt(k)) ==
      Outcome(true, if k == 3 then version else 3, SchemaAt(3), SortedVersions()[k..])
    decreases 3 - k
  {
    var vs := SortedVersions();
    assert vs == [1, 2, 3];
    if k < 3 {
      var rest := vs[k..];
      assert rest[0] == k + 1 && rest[1..] == vs[k + 1..] && rest == [k + 1] + vs[k + 1..];
      StepFromConsistent(k);
      RunFromConsistent(current, k + 1, k + 1);
      var inner := RunLoop(current, vs[k + 1..], k + 1, SchemaAt(k + 1));
      RunLoopApplied(current, rest, version, SchemaAt(k), SchemaAt(k + 1));
    } else {
      assert vs[k..] == [];
    }
  }

  /** From a consistent store at any version, the run completes and leaves the latest schema. */
  lemma MigrateFromConsistent(version: int)
    ensures var latest := if version < LatestVersion() then LatestVersion() else version;
      Migrate(version, SchemaAt(version)) == Outcome(true, latest, SchemaAt(latest), Pending(version))
  {
    var vs := SortedVersions();
    assert vs == [1, 2, 3] && LatestVersion() == 3;
    if version <= 0 {
      RunFromConsistent(version, 0, version);
      assert SchemaAt(version) == SchemaAt(0) && vs[0..] == vs;
    } else if version == 1 {
      RunFromConsistent(version, 1, version);
      RunLoopSkipped(version, vs, version, SchemaAt(version));
    } else if version == 2 {
      RunFromConsistent(version, 2, version);
      RunLoopSkipped(version, vs, version, SchemaAt(version));
      assert vs[1..][0] == 2 && vs[1..][1..] == vs[2..];
      RunLoopSkipped(version, vs[1..], version, SchemaAt(version));
    }
  }

  /** A second run after a completed one changes nothing: no duplicate seed rows, same version. */
  lemma MigrateIdempotent(version: int, t: Tables)
    requires Migrate(version, t).ok
    ensures var o := Migrate(version, t);
      Migrate(o.version, o.tables) == Outcome(true, o.version, o.tables, [])
  {
  }

  /**
   * A fresh database file (version 0, no tables) is brought to version 3 by
   * applying 1, 2 and 3, after which the English UI strings are readable,
   * the application title among them.
   */
  lemma FreshInstallTranslations()
    ensures var o := Migrate(0, Tables(false, false, map[]));
      && o.ok && o.version == 3 && o.applied == [1, 2, 3]
      && o.tables.snippets && o.tables.translations
      && "app_title" in TranslationsFor(o.tables.translationRows, "en")
      && TranslationsFor(o.tables.translationRows, "en")["app_title"] == "Tylex Snippets"
  {
    FreshInstallMigrates();
    SeededTitle();
  }

  lemma FreshInstallMigrates()
    ensures Migrate(0, Tables(false, false, map[])) == Outcome(true, 3, SchemaAt(3), [1, 2, 3])
  {
    MigrateFromConsistent(0);
    assert SchemaAt(0) == Tables(false, false, map[]);
    PendingFromZero();
  }

  lemma PendingFromZero()
    ensures Pending(0) == [1, 2, 3]
  {
    assert PendingIn([3], 0) == [3];
    assert PendingIn([2, 3], 0) == [2, 3];
  }

  /** The seeded UI strings hold the application title in English. */
  lemma SeededTitle()
    ensures SchemaAt(3).translationRows == SeedTable()
    ensures "app_title" in TranslationsFor(SeedTable(), "en")
    ensures TranslationsFor(SeedTable(), "en")["app_title"] == "Tylex Snippets"
  {
  }
}
