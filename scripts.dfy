/**
 * `installScripts` as a function on the manifest: create `scripts` when it is
 * absent, set each selected script, and for npm rewrite `yarn` to `npm run`.
 */
module Scripts {
  import opened Wrappers
  import opened Text
  import opened Manifests
  import opened Tables

  /**
   * The command stored for script `k` under `manager`: for npm every `yarn`
   * becomes `npm run`. The source only replaces when the template includes
   * `yarn`; ReplaceAllAbsent shows that skipping is the same as replacing.
   */
  function ScriptCommand(k: ScriptKey, manager: PackageManager): string
  {
    if manager == Npm then ReplaceAll(ScriptTemplate(k), "yarn", "npm run") else ScriptTemplate(k)
  }

  /** Under npm `watch` runs the build through npm: `npm run build --watch`. */
  lemma WatchUnderNpm()
    ensures ScriptCommand(Watch, Npm) == "npm run build --watch"
  {
    WatchRewritten();
    assert ScriptCommand(Watch, Npm) == ReplaceAll("yarn build --watch", "yarn", "npm run");
  }

  lemma WatchRewritten()
    ensures ReplaceAll("yarn build --watch", "yarn", "npm run") == "npm run build --watch"
  {
    WatchPiecesRewritten();
    WatchTemplateSplits();
  }

  lemma WatchTemplateSplits()
    ensures "yarn build --watch" == "yarn" + " build --watch"
    ensures "npm run build --watch" == "npm run" + " build --watch"
  {
  }

  lemma WatchPiecesRewritten()
    ensures ReplaceAll("yarn" + " build --watch", "yarn", "npm run") == "npm run" + " build --watch"
  {
    ReplaceFirstOnly("yarn", " build --watch", "npm run");
  }

  /** Every template that does not mention yarn is stored verbatim under npm as well. */
  lemma OthersVerbatimUnderNpm(k: ScriptKey)
    requires k != Watch
    ensures ScriptCommand(k, Npm) == ScriptTemplate(k)
  {
    var t := ScriptTemplate(k);
    if k == Build {
      assert 'n' !in t;
      MissingCharNotContained(t, "yarn", 3);
    } else {
      assert 'y' !in t;
      MissingCharNotContained(t, "yarn", 0);
    }
    ReplaceAllAbsent(t, "yarn", "npm run");
  }

  /** Under npm only `watch` changes, to `npm run build --watch`; under yarn every command is verbatim. */
  lemma ScriptCommandValues(k: ScriptKey, manager: PackageManager)
    ensures ScriptCommand(k, manager) ==
      if manager == Npm && k == Watch then "npm run build --watch" else ScriptTemplate(k)
  {
    if manager == Npm {
      if k == Watch {
        WatchUnderNpm();
      } else {
        OthersVerbatimUnderNpm(k);
      }
    }
  }

  /** The manifest names of the selected scripts. */
  function SelectedNames(keys: seq<ScriptKey>): set<string>
  {
    set k | k in keys :: ScriptName(k)
  }

  /** The `scripts` object after the `forEach` over `keys` has run on `base`. */
  function ScriptEntries(base: Entries, keys: seq<ScriptKey>, manager: PackageManager): Entries
    decreases |keys|
  {
    if keys == [] then base
    else
      var last := keys[|keys| - 1];
      ScriptEntries(base, keys[..|keys| - 1], manager)[ScriptName(last) := ScriptCommand(last, manager)]
  }

  /**
   * After the loop, the selected names are added to the existing ones, each
   * selected script holds its command, and every other entry is untouched.
   */
  lemma ScriptEntriesSpec(base: Entries, keys: seq<ScriptKey>, manager: PackageManager)
    ensures ScriptEntries(base, keys, manager).Keys == base.Keys + SelectedNames(keys)
    ensures forall k | k in keys :: ScriptEntries(base, keys, manager)[ScriptName(k)] == ScriptCommand(k, manager)
    ensures forall n | n in base && n !in SelectedNames(keys) :: ScriptEntries(base, keys, manager)[n] == base[n]
  {
    ScriptEntriesKeys(base, keys, manager);
    ScriptEntriesSelected(base, keys, manager);
    ScriptEntriesOthers(base, keys, manager);
  }

  lemma {:induction false} ScriptEntriesKeys(base: Entries, keys: seq<ScriptKey>, manager: PackageManager)
    ensures ScriptEntries(base, keys, manager).Keys == base.Keys + SelectedNames(keys)
    decreases |keys|
  {
    if keys != [] {
      ScriptEntriesKeys(base, keys[..|keys| - 1], manager);
      SelectedNamesLast(keys);
    }
  }

  lemma {:induction false} ScriptEntriesSelected(base: Entries, keys: seq<ScriptKey>, manager: PackageManager)
    ensures forall k | k in keys :: ScriptName(k) in ScriptEntries(base, keys, manager)
    ensures forall k | k in keys :: ScriptEntries(base, keys, manager)[ScriptName(k)] == ScriptCommand(k, manager)
    decreases |keys|
  {
    if keys != [] {
      var init, last := keys[..|keys| - 1], keys[|keys| - 1];
      ScriptEntriesSelected(base, init, manager);
      var prev := ScriptEntries(base, init, manager);
      var entries := ScriptEntries(base, keys, manager);
      assert entries == prev[ScriptName(last) := ScriptCommand(last, manager)];
      forall k | k in keys
        ensures ScriptName(k) in entries && entries[ScriptName(k)] == ScriptCommand(k, manager)
      {
        ScriptNameInjective(k, last);
        if k != last {
          var i :| 0 <= i < |keys| && keys[i] == k;
          assert init[i] == k;
        }
      }
    }
  }

  lemma {:induction false} ScriptEntriesOthers(base: Entries, keys: seq<ScriptKey>, manager: PackageManager)
    ensures forall n | n in base && n !in SelectedNames(keys) :: n in ScriptEntries(base, keys, manager) && ScriptEntries(base, keys, manager)[n] == base[n]
    decreases |keys|
  {
    if keys != [] {
      ScriptEntriesOthers(base, keys[..|keys| - 1], manager);
      SelectedNamesLast(keys);
    }
  }

  /** The names selected by a list are those of all but its last key, plus the last key's. */
  lemma SelectedNamesLast(keys: seq<ScriptKey>)
    requires keys != []
    ensures SelectedNames(keys) == SelectedNames(keys[..|keys| - 1]) + {ScriptName(keys[|keys| - 1])}
  {
    assert keys == keys[..|keys| - 1] + [keys[|keys| - 1]];
  }

  /**
   * `installScripts` on a loaded manifest: `scripts` exists afterwards, every
   * selected script holds its command, unselected scripts and every other
   * field are unchanged.
   */
  function ScriptsAdded(m: Manifest, keys: seq<ScriptKey>, manager: PackageManager): (r: Manifest)
    ensures r.scripts.Some? && r == m.(scripts := r.scripts)
    ensures forall k | k in keys :: ScriptName(k) in r.scripts.value && r.scripts.value[ScriptName(k)] == ScriptCommand(k, manager)
    ensures forall n | n !in SelectedNames(keys) :: n in r.scripts.value <==> n in OrEmpty(m.scripts)
    ensures forall n | n !in SelectedNames(keys) && n in OrEmpty(m.scripts) :: r.scripts.value[n] == OrEmpty(m.scripts)[n]
  {
    ScriptEntriesSpec(OrEmpty(m.scripts), keys, manager);
    m.(scripts := Some(ScriptEntries(OrEmpty(m.scripts), keys, manager)))
  }

  /** Installing the same scripts twice leaves the manifest as installing them once. */
  lemma ScriptsAddedIdempotent(m: Manifest, keys: seq<ScriptKey>, manager: PackageManager)
    ensures ScriptsAdded(ScriptsAdded(m, keys, manager), keys, manager) == ScriptsAdded(m, keys, manager)
  {
    var once := ScriptsAdded(m, keys, manager);
    var twice := ScriptsAdded(once, keys, manager);
    forall n | n in once.scripts.value ensures n in twice.scripts.value && twice.scripts.value[n] == once.scripts.value[n] {
      if n in SelectedNames(keys) {
        var k :| k in keys && ScriptName(k) == n;
      }
    }
    forall n | n in twice.scripts.value ensures n in once.scripts.value {
      if n in SelectedNames(keys) {
        var k :| k in keys && ScriptName(k) == n;
      }
    }
    assert twice.scripts.value == once.scripts.value;
  }
}
