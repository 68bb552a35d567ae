/**
 * Registry publication of `scripts/publish-npm-baseline.ts`: a package loop against
 * an external store that can be cut off before any single registry write.
 */
module Publication {
  import opened Wrappers

  datatype PackedPackage = PackedPackage(name: string, integrity: string)

  datatype Bundle = Bundle(packages: seq<PackedPackage>, version: string, distTag: string)

  /** Integrity by name and version, and the version a name's dist-tag points to. */
  datatype Registry = Registry(integrity: map<(string, string), string>, tags: map<(string, string), string>)

  const RELEASE_ENTRY_PACKAGE := "@deepseek-ai/dsh"
  const LATEST_DIST_TAG := "latest"

  datatype Outcome =
    | Done
    | Interrupted
    | Conflict(name: string)
    | UnknownPackage(name: string)
    | VerifyFailed

  /** What a publish run leaves: the registry, and how many writes it could still have made. */
  datatype Run = Run(registry: Registry, left: nat, outcome: Outcome)

  ghost predicate ValidBundle(b: Bundle) {
    && b.packages != []
    && forall i, j :: 0 <= i < j < |b.packages| ==> b.packages[i].name != b.packages[j].name
  }

  predicate TagIs(r: Registry, name: string, tag: string, version: string) {
    (name, tag) in r.tags && r.tags[(name, tag)] == version
  }

  predicate HasIntegrity(b: Bundle, r: Registry, p: PackedPackage) {
    (p.name, b.version) in r.integrity && r.integrity[(p.name, b.version)] == p.integrity
  }

  /** The registry knows the package in some version; otherwise listing its tags fails. */
  predicate KnowsPackage(r: Registry, name: string) {
    exists k | k in r.integrity :: k.0 == name
  }

  function PutVersion(b: Bundle, r: Registry, p: PackedPackage): Registry {
    r.(integrity := r.integrity[(p.name, b.version) := p.integrity])
  }

  function PutTag(b: Bundle, r: Registry, name: string, tag: string): Registry {
    r.(tags := r.tags[(name, tag) := b.version])
  }

  // ---------- One run, as a function of the registry ----------

  /** `npm publish --tag`: the version is stored, then the tag moves. */
  function NpmPublish(b: Bundle, p: PackedPackage, r: Registry, left: nat): Run {
    if left == 0 then Run(r, 0, Interrupted)
    else if left == 1 then Run(PutVersion(b, r, p), 0, Interrupted)
    else Run(PutTag(b, PutVersion(b, r, p), p.name, b.distTag), left - 2, Done)
  }

  /** `ensureDistTag`: `npm dist-tag add` only works for a version the registry has. */
  function EnsureDistTag(b: Bundle, name: string, tag: string, r: Registry, left: nat): Run {
    if !KnowsPackage(r, name) then Run(r, left, UnknownPackage(name))
    else if TagIs(r, name, tag, b.version) then Run(r, left, Done)
    else if (name, b.version) !in r.integrity then Run(r, left, UnknownPackage(name))
    else if left == 0 then Run(r, 0, Interrupted)
    else Run(PutTag(b, r, name, tag), left - 1, Done)
  }

  /** One round of the package loop. */
  function PublishOne(b: Bundle, p: PackedPackage, r: Registry, left: nat): Run {
    if (p.name, b.version) !in r.integrity then
      var x := NpmPublish(b, p, r, left);
      if x.outcome.Done? then EnsureDistTag(b, p.name, b.distTag, x.registry, x.left) else x
    else if !HasIntegrity(b, r, p) then Run(r, left, Conflict(p.name))
    else EnsureDistTag(b, p.name, b.distTag, r, left)
  }

  predicate PackageVerified(b: Bundle, r: Registry, p: PackedPackage) {
    HasIntegrity(b, r, p) && TagIs(r, p.name, b.distTag, b.version)
  }

  /** The package checks of `verifyRemote`, from package `i` on. */
  predicate VerifiedFrom(b: Bundle, r: Registry, i: nat) {
    forall j | i <= j < |b.packages| :: PackageVerified(b, r, b.packages[j])
  }

  /** `verify`. */
  predicate Verified(b: Bundle, r: Registry) {
    VerifiedFrom(b, r, 0) && TagIs(r, RELEASE_ENTRY_PACKAGE, LATEST_DIST_TAG, b.version)
  }

  /** `publish` from package `i` on, with `left` registry writes before it is cut off. */
  function PublishFrom(b: Bundle, i: nat, r: Registry, left: nat): Run
    requires i <= |b.packages|
    decreases |b.packages| - i
  {
    if i == |b.packages| then
      var x := EnsureDistTag(b, RELEASE_ENTRY_PACKAGE, LATEST_DIST_TAG, r, left);
      if x.outcome.Done? && !Verified(b, x.registry) then x.(outcome := VerifyFailed) else x
    else
      var x := PublishOne(b, b.packages[i], r, left);
      if x.outcome.Done? then PublishFrom(b, i + 1, x.registry, x.left) else x
  }

  function Publish(b: Bundle, r: Registry, left: nat): Run {
    PublishFrom(b, 0, r, left)
  }

  // ---------- The class ----------

  /** A publication against its recorded registry. */
  class RegistryPublication {
    const bundle: Bundle
    var registry: Registry
    /** Registry writes that still happen before the process dies. */
    var left: nat

    constructor (bundle: Bundle, registry: Registry, left: nat)
      ensures this.bundle == bundle && this.registry == registry && this.left == left
    {
      this.bundle, this.registry, this.left := bundle, registry, left;
    }

    method EnsureTag(name: string, tag: string) returns (outcome: Outcome)
      modifies this
      ensures Run(registry, left, outcome) == EnsureDistTag(bundle, name, tag, old(registry), old(left))
      ensures registry.integrity == old(registry).integrity
      ensures registry.tags == old(registry).tags
              || (registry.tags == old(registry).tags[(name, tag) := bundle.version]
                  && !TagIs(old(registry), name, tag, bundle.version) && (name, bundle.version) in registry.integrity
                  && left == old(left) - 1)
      ensures outcome == Done ==> TagIs(registry, name, tag, bundle.version)
    {
      if !KnowsPackage(registry, name) {
        return UnknownPackage(name);
      }
      if TagIs(registry, name, tag, bundle.version) {
        return Done;
      }
      if (name, bundle.version) !in registry.integrity {
        return UnknownPackage(name);
      }
      if left == 0 {
        return Interrupted;
      }
      registry, left := PutTag(bundle, registry, name, tag), left - 1;
      return Done;
    }

    method NpmPublishPackage(p: PackedPackage) returns (outcome: Outcome)
      modifies this
      ensures Run(registry, left, outcome) == NpmPublish(bundle, p, old(registry), old(left))
    {
      if left == 0 {
        return Interrupted;
      }
      registry, left := PutVersion(bundle, registry, p), left - 1;
      if left == 0 {
        return Interrupted;
      }
      registry, left := PutTag(bundle, registry, p.name, bundle.distTag), left - 1;
      return Done;
    }

    /** `verifyRemote`. */
    method VerifyRemote() returns (ok: bool)
      ensures ok == VerifiedFrom(bundle, registry, 0)
    {
      for i := 0 to |bundle.packages|
        invariant forall j :: 0 <= j < i ==> PackageVerified(bundle, registry, bundle.packages[j])
      {
        var p := bundle.packages[i];
        if (p.name, bundle.version) !in registry.integrity
           || registry.integrity[(p.name, bundle.version)] != p.integrity
           || !TagIs(registry, p.name, bundle.distTag, bundle.version) {
          return false;
        }
      }
      return true;
    }

    /** `publish`: the loop over the bundle, then the entry's `latest`, then verification. */
    method PublishBundle() returns (outcome: Outcome)
      modifies this
      ensures Run(registry, left, outcome) == Publish(bundle, old(registry), old(left))
    {
      for i := 0 to |bundle.packages|
        invariant PublishFrom(bundle, i, registry, left) == Publish(bundle, old(registry), old(left))
      {
        var p := bundle.packages[i];
        if (p.name, bundle.version) !in registry.integrity {
          outcome := NpmPublishPackage(p);
          if !outcome.Done? {
            return;
          }
        } else if registry.integrity[(p.name, bundle.version)] != p.integrity {
          return Conflict(p.name);
        }
        outcome := EnsureTag(p.name, bundle.distTag);
        if !outcome.Done? {
          return;
        }
      }
      outcome := EnsureTag(RELEASE_ENTRY_PACKAGE, LATEST_DIST_TAG);
      if !outcome.Done? {
        return;
      }
      var ok := VerifyRemote();
      if !ok || !TagIs(registry, RELEASE_ENTRY_PACKAGE, LATEST_DIST_TAG, bundle.version) {
        return VerifyFailed;
      }
    }
  }

  // ---------- What a run may change ----------

  ghost predicate BundleVersion(b: Bundle, k: (string, string), integrity: string) {
    exists p :: p in b.packages && k == (p.name, b.version) && integrity == p.integrity
  }

  ghost predicate BundleTag(b: Bundle, k: (string, string)) {
    k == (RELEASE_ENTRY_PACKAGE, LATEST_DIST_TAG) || exists p :: p in b.packages && k == (p.name, b.distTag)
  }

  /** `s` is `r` plus bundle versions and bundle tags; no existing integrity is replaced. */
  ghost predicate Advances(b: Bundle, r: Registry, s: Registry) {
    && (forall k :: k in r.integrity ==> k in s.integrity && s.integrity[k] == r.integrity[k])
    && (forall k :: k in s.integrity ==> k in r.integrity || BundleVersion(b, k, s.integrity[k]))
    && (forall k :: k in r.tags ==> k in s.tags)
    && (forall k :: k in s.tags ==>
          (k in r.tags && s.tags[k] == r.tags[k]) || (BundleTag(b, k) && s.tags[k] == b.version))
  }

  lemma AdvancesTransitive(b: Bundle, r: Registry, s: Registry, t: Registry)
    requires Advances(b, r, s) && Advances(b, s, t)
    ensures Advances(b, r, t)
  {
  }

  /** What is verified stays verified. */
  lemma AdvancesKeepsVerified(b: Bundle, r: Registry, s: Registry, p: PackedPackage)
    requires Advances(b, r, s) && PackageVerified(b, r, p)
    ensures PackageVerified(b, s, p)
  {
  }

  lemma PublishOneAdvances(b: Bundle, p: PackedPackage, r: Registry, left: nat)
    requires p in b.packages
    ensures Advances(b, r, PublishOne(b, p, r, left).registry)
    ensures PublishOne(b, p, r, left).outcome.Done? ==> PackageVerified(b, PublishOne(b, p, r, left).registry, p)
  {
    if (p.name, b.version) !in r.integrity {
      var x := NpmPublish(b, p, r, left);
      NpmPublishAdvances(b, p, r, left);
      TaggingAdvances(b, p, x.registry, x.left);
      AdvancesTransitive(b, r, x.registry, PublishOne(b, p, r, left).registry);
    } else {
      TaggingAdvances(b, p, r, left);
    }
  }

  lemma NpmPublishAdvances(b: Bundle, p: PackedPackage, r: Registry, left: nat)
    requires p in b.packages && (p.name, b.version) !in r.integrity
    ensures var x := NpmPublish(b, p, r, left);
            Advances(b, r, x.registry) && (x.outcome.Done? ==> HasIntegrity(b, x.registry, p))
  {
  }

  lemma TaggingAdvances(b: Bundle, p: PackedPackage, r: Registry, left: nat)
    requires p in b.packages
    ensures var x := EnsureDistTag(b, p.name, b.distTag, r, left);
            && Advances(b, r, x.registry)
            && (x.outcome.Done? && HasIntegrity(b, r, p) ==> PackageVerified(b, x.registry, p))
  {
  }

  /** Safety: whatever happens, a run only adds bundle versions and moves bundle tags. */
  lemma {:induction false} PublishAdvances(b: Bundle, i: nat, r: Registry, left: nat)
    requires i <= |b.packages|
    ensures Advances(b, r, PublishFrom(b, i, r, left).registry)
    decreases |b.packages| - i
  {
    if i < |b.packages| {
      var x := PublishOne(b, b.packages[i], r, left);
      PublishOneAdvances(b, b.packages[i], r, left);
      if x.outcome.Done? {
        PublishAdvances(b, i + 1, x.registry, x.left);
        AdvancesTransitive(b, r, x.registry, PublishFrom(b, i, r, left).registry);
      }
    }
  }

  // ---------- When a run finishes ----------

  /** The packages before `i` are in the registry, exact and tagged. */
  ghost predicate PrefixVerified(b: Bundle, r: Registry, i: nat)
    requires i <= |b.packages|
  {
    forall j :: 0 <= j < i ==> PackageVerified(b, r, b.packages[j])
  }

  predicate Conflicts(b: Bundle, r: Registry, p: PackedPackage) {
    (p.name, b.version) in r.integrity && r.integrity[(p.name, b.version)] != p.integrity
  }

  predicate NoConflictFrom(b: Bundle, r: Registry, i: nat) {
    forall j | i <= j < |b.packages| :: !Conflicts(b, r, b.packages[j])
  }

  /** Publishing one package leaves the integrity of every other version as it was. */
  lemma PublishOneFrame(b: Bundle, p: PackedPackage, q: PackedPackage, r: Registry, left: nat)
    requires q.name != p.name
    ensures Conflicts(b, PublishOne(b, p, r, left).registry, q) <==> Conflicts(b, r, q)
  {
  }

  lemma PublishOneOutcome(b: Bundle, p: PackedPackage, r: Registry, left: nat)
    ensures var x := PublishOne(b, p, r, left);
            && (x.outcome.Conflict? <==> Conflicts(b, r, p))
            && (x.outcome.Conflict? ==> x == Run(r, left, Conflict(p.name)))
            && (x.outcome.Done? || x.outcome.Interrupted? || x.outcome.Conflict?)
            && (left >= 3 ==> !x.outcome.Interrupted? && x.left >= left - 3)
  {
  }

  /** The loop advances past a package that does not conflict. */
  lemma PublishStep(b: Bundle, i: nat, r: Registry, left: nat)
    requires ValidBundle(b) && i < |b.packages| && PrefixVerified(b, r, i)
    requires PublishOne(b, b.packages[i], r, left).outcome.Done?
    ensures var s := PublishOne(b, b.packages[i], r, left).registry;
            && PrefixVerified(b, s, i + 1)
            && (NoConflictFrom(b, s, i + 1) <==> NoConflictFrom(b, r, i))
            && Advances(b, r, s)
  {
    var p := b.packages[i];
    PublishOneAdvances(b, p, r, left);
    PublishOneOutcome(b, p, r, left);
    var s := PublishOne(b, p, r, left).registry;
    forall j | 0 <= j < i + 1 ensures PackageVerified(b, s, b.packages[j]) {
      if j < i { AdvancesKeepsVerified(b, r, s, b.packages[j]); }
    }
    forall j | i + 1 <= j < |b.packages| ensures Conflicts(b, s, b.packages[j]) <==> Conflicts(b, r, b.packages[j]) {
      PublishOneFrame(b, p, b.packages[j], r, left);
    }
    assert !Conflicts(b, r, p);
  }

  /** A run that reports success has verified everything, and verification never fails. */
  lemma {:induction false} DoneIsVerified(b: Bundle, i: nat, r: Registry, left: nat)
    requires ValidBundle(b) && i <= |b.packages| && PrefixVerified(b, r, i)
    ensures !PublishFrom(b, i, r, left).outcome.VerifyFailed?
    ensures PublishFrom(b, i, r, left).outcome.Done? ==>
              && Verified(b, PublishFrom(b, i, r, left).registry)
              && TagIs(PublishFrom(b, i, r, left).registry, "@deepseek-ai/dsh", "latest", b.version)
    decreases |b.packages| - i
  {
    if i < |b.packages| {
      var x := PublishOne(b, b.packages[i], r, left);
      PublishOneOutcome(b, b.packages[i], r, left);
      if x.outcome.Done? {
        PublishStep(b, i, r, left);
        DoneIsVerified(b, i + 1, x.registry, x.left);
      }
    } else {
      var x := EnsureDistTag(b, RELEASE_ENTRY_PACKAGE, LATEST_DIST_TAG, r, left);
      forall j | 0 <= j < |b.packages| ensures PackageVerified(b, x.registry, b.packages[j]) {
        assert PackageVerified(b, r, b.packages[j]);
      }
    }
  }

  /** The entry's `latest` can be set once the bundle is published. */
  ghost predicate EntryAvailable(b: Bundle, r: Registry) {
    || (exists p :: p in b.packages && p.name == RELEASE_ENTRY_PACKAGE)
    || (RELEASE_ENTRY_PACKAGE, b.version) in r.integrity
    || (KnowsPackage(r, RELEASE_ENTRY_PACKAGE) && TagIs(r, RELEASE_ENTRY_PACKAGE, LATEST_DIST_TAG, b.version))
  }

  /**
   * A run that is not cut off succeeds exactly on a registry without a conflicting
   * integrity in which the entry can be tagged; a conflict stops it at that package.
   */
  lemma {:induction false} UncutRunSucceeds(b: Bundle, i: nat, r: Registry, left: nat)
    requires ValidBundle(b) && i <= |b.packages| && PrefixVerified(b, r, i)
    requires left >= 3 * (|b.packages| - i) + 1
    ensures PublishFrom(b, i, r, left).outcome.Done? <==> NoConflictFrom(b, r, i) && EntryAvailable(b, r)
    ensures !NoConflictFrom(b, r, i) ==>
              exists c :: i <= c < |b.packages| && Conflicts(b, r, b.packages[c])
                && PublishFrom(b, i, r, left).outcome == Conflict(b.packages[c].name)
                && PrefixVerified(b, PublishFrom(b, i, r, left).registry, c)
    decreases |b.packages| - i
  {
    if i < |b.packages| {
      var p := b.packages[i];
      var x := PublishOne(b, p, r, left);
      PublishOneOutcome(b, p, r, left);
      if x.outcome.Done? {
        PublishStep(b, i, r, left);
        if EntryAvailable(b, r) {
          EntryStaysAvailable(b, r, x.registry);
        } else {
          PublishKeepsEntryUnavailable(b, i, r, left);
        }
        UncutRunSucceeds(b, i + 1, x.registry, x.left);
        if !NoConflictFrom(b, r, i) {
          var c :| i + 1 <= c < |b.packages| && Conflicts(b, x.registry, b.packages[c])
                && PublishFrom(b, i + 1, x.registry, x.left).outcome == Conflict(b.packages[c].name)
                && PrefixVerified(b, PublishFrom(b, i + 1, x.registry, x.left).registry, c);
          PublishOneFrame(b, p, b.packages[c], r, left);
        }
      }
    } else {
      if EntryAvailable(b, r) { EntryKnown(b, r); }
      DoneIsVerified(b, i, r, left);
    }
  }

  lemma PublishKeepsEntryUnavailable(b: Bundle, i: nat, r: Registry, left: nat)
    requires i < |b.packages| && !EntryAvailable(b, r)
    ensures !EntryAvailable(b, PublishOne(b, b.packages[i], r, left).registry)
  {
    var p := b.packages[i];
    var s := PublishOne(b, p, r, left).registry;
    assert p in b.packages && p.name != RELEASE_ENTRY_PACKAGE;
    if k :| k in s.integrity && k.0 == RELEASE_ENTRY_PACKAGE {
      assert k in r.integrity;
      assert KnowsPackage(r, RELEASE_ENTRY_PACKAGE);
    }
  }

  lemma EntryKnown(b: Bundle, r: Registry)
    requires ValidBundle(b) && PrefixVerified(b, r, |b.packages|) && EntryAvailable(b, r)
    ensures KnowsPackage(r, RELEASE_ENTRY_PACKAGE)
    ensures TagIs(r, RELEASE_ENTRY_PACKAGE, LATEST_DIST_TAG, b.version)
            || (RELEASE_ENTRY_PACKAGE, b.version) in r.integrity
  {
  }

  lemma EntryStaysAvailable(b: Bundle, r: Registry, s: Registry)
    requires Advances(b, r, s) && EntryAvailable(b, r)
    ensures EntryAvailable(b, s)
  {
  }

  // ---------- Write by write ----------

  /** One registry write: a new version, or a tag set. */
  ghost predicate OneWrite(r: Registry, s: Registry) {
    || (s.tags == r.tags && exists k, v :: k !in r.integrity && Sets(r.integrity, s.integrity, k, v))
    || (s.integrity == r.integrity && exists k, v :: Sets(r.tags, s.tags, k, v))
  }

  predicate Sets(before: map<(string, string), string>, after: map<(string, string), string>, k: (string, string),
                 v: string)
  {
    after == before[k := v]
  }

  ghost predicate NextWrite(x: Run, y: Run) {
    if x.outcome.Interrupted? then x.left == 0 && OneWrite(x.registry, y.registry)
    else y == Run(x.registry, x.left + 1, x.outcome)
  }

  lemma TagNextWrite(b: Bundle, name: string, tag: string, r: Registry, left: nat)
    ensures NextWrite(EnsureDistTag(b, name, tag, r, left), EnsureDistTag(b, name, tag, r, left + 1))
  {
    assert Sets(r.tags, PutTag(b, r, name, tag).tags, (name, tag), b.version);
  }

  lemma PublishOneNextWrite(b: Bundle, p: PackedPackage, r: Registry, left: nat)
    ensures NextWrite(PublishOne(b, p, r, left), PublishOne(b, p, r, left + 1))
  {
    if (p.name, b.version) !in r.integrity {
      var s := PutVersion(b, r, p);
      var t := PutTag(b, s, p.name, b.distTag);
      if left == 0 {
        assert Sets(r.integrity, s.integrity, (p.name, b.version), p.integrity);
      } else if left == 1 {
        assert Sets(s.tags, t.tags, (p.name, b.distTag), b.version);
      } else {
        TagNextWrite(b, p.name, b.distTag, t, left - 2);
      }
    } else if HasIntegrity(b, r, p) {
      TagNextWrite(b, p.name, b.distTag, r, left);
    }
  }

  /** A run that could make one write more makes just that, or was not cut off by its end. */
  lemma {:induction false} OneMoreWrite(b: Bundle, i: nat, r: Registry, left: nat)
    requires i <= |b.packages|
    ensures NextWrite(PublishFrom(b, i, r, left), PublishFrom(b, i, r, left + 1))
    decreases |b.packages| - i
  {
    if i == |b.packages| {
      TagNextWrite(b, RELEASE_ENTRY_PACKAGE, LATEST_DIST_TAG, r, left);
    } else {
      PublishOneNextWrite(b, b.packages[i], r, left);
      var x, y := PublishOne(b, b.packages[i], r, left), PublishOne(b, b.packages[i], r, left + 1);
      if x.outcome.Done? {
        OneMoreWrite(b, i + 1, x.registry, x.left);
      } else if x.outcome.Interrupted? && y.outcome.Done? {
        NothingLeft(b, i, r, left);
        NoWriteLeft(b, i + 1, y.registry);
      }
    }
  }

  /** The write that completes a package is the last there was. */
  lemma NothingLeft(b: Bundle, i: nat, r: Registry, left: nat)
    requires i < |b.packages|
    requires PublishOne(b, b.packages[i], r, left).outcome.Interrupted?
    requires PublishOne(b, b.packages[i], r, left + 1).outcome.Done?
    ensures PublishOne(b, b.packages[i], r, left + 1).left == 0
  {
  }

  /** Without a write to make, the registry stays. */
  lemma {:induction false} NoWriteLeft(b: Bundle, i: nat, r: Registry)
    requires i <= |b.packages|
    ensures PublishFrom(b, i, r, 0).registry == r
    decreases |b.packages| - i
  {
    if i < |b.packages| && PublishOne(b, b.packages[i], r, 0).outcome.Done? {
      assert PublishOne(b, b.packages[i], r, 0) == Run(r, 0, Done);
      NoWriteLeft(b, i + 1, r);
    }
  }

  /** A package that is new gets its version by the first write, and its tag by the second. */
  lemma NewPackageWrites(b: Bundle, i: nat, r: Registry)
    requires i < |b.packages| && (b.packages[i].name, b.version) !in r.integrity
    ensures var p, x := b.packages[i], PublishFrom(b, i, r, 1);
            && x.outcome.Interrupted? && x.registry.tags == r.tags
            && x.registry.integrity == r.integrity[(p.name, b.version) := p.integrity]
    ensures var p, x := b.packages[i], PublishOne(b, b.packages[i], r, 2);
            && x.outcome.Done? && x.left == 0
            && x.registry.tags == r.tags[(p.name, b.distTag) := b.version]
            && x.registry.integrity == r.integrity[(p.name, b.version) := p.integrity]
  {
  }

  // ---------- A conflict ----------

  /** Only versions and tags of the packages from `i` up to `k` differ. */
  ghost predicate OnlyBetween(b: Bundle, r: Registry, s: Registry, i: nat, k: nat)
    requires i <= k <= |b.packages|
  {
    && (forall key :: SameAt(r.integrity, s.integrity, key) || IsOf(b, i, k, key, b.version))
    && (forall key :: SameAt(r.tags, s.tags, key) || IsOf(b, i, k, key, b.distTag))
  }

  /** The key joins the name of one of the packages from `i` up to `k` with this version or tag. */
  ghost predicate IsOf(b: Bundle, i: nat, k: nat, key: (string, string), second: string)
    requires i <= k <= |b.packages|
  {
    exists j :: i <= j < k && key == (b.packages[j].name, second)
  }

  predicate SameAt(before: map<(string, string), string>, after: map<(string, string), string>, key: (string, string)) {
    (key in before <==> key in after) && (key in before ==> after[key] == before[key])
  }

  lemma PublishOneOnly(b: Bundle, i: nat, r: Registry, left: nat)
    requires i < |b.packages|
    ensures OnlyBetween(b, r, PublishOne(b, b.packages[i], r, left).registry, i, i + 1)
  {
    var p, s := b.packages[i], PublishOne(b, b.packages[i], r, left).registry;
    assert IsOf(b, i, i + 1, (p.name, b.version), b.version) && IsOf(b, i, i + 1, (p.name, b.distTag), b.distTag);
    forall key | key != (p.name, b.version) ensures SameAt(r.integrity, s.integrity, key) {}
    forall key | key != (p.name, b.distTag) ensures SameAt(r.tags, s.tags, key) {}
  }

  /**
   * A run that meets a conflict has changed nothing but the version and the bundle's tag of
   * packages before it; the entry's `latest` only if it is one of those tags.
   */
  lemma {:induction false} ConflictLeavesRest(b: Bundle, i: nat, r: Registry, left: nat) returns (k: nat)
    requires ValidBundle(b) && i <= |b.packages| && PrefixVerified(b, r, i)
    requires PublishFrom(b, i, r, left).outcome.Conflict?
    ensures i <= k < |b.packages| && Conflicts(b, r, b.packages[k])
    ensures PublishFrom(b, i, r, left).outcome == Conflict(b.packages[k].name)
    ensures PrefixVerified(b, PublishFrom(b, i, r, left).registry, k)
    ensures OnlyBetween(b, r, PublishFrom(b, i, r, left).registry, i, k)
    decreases |b.packages| - i
  {
    var p := b.packages[i];
    var x := PublishOne(b, p, r, left);
    PublishOneOutcome(b, p, r, left);
    if x.outcome.Done? {
      PublishStep(b, i, r, left);
      k := ConflictLeavesRest(b, i + 1, x.registry, x.left);
      PublishOneFrame(b, p, b.packages[k], r, left);
      PublishOneOnly(b, i, r, left);
      OnlyThen(b, r, x.registry, PublishFrom(b, i, r, left).registry, i, k);
    } else {
      k := i;
    }
  }

  lemma OnlyThen(b: Bundle, r: Registry, s: Registry, t: Registry, i: nat, k: nat)
    requires i < k <= |b.packages| && OnlyBetween(b, r, s, i, i + 1) && OnlyBetween(b, s, t, i + 1, k)
    ensures OnlyBetween(b, r, t, i, k)
  {
    forall key | !SameAt(r.integrity, t.integrity, key) ensures IsOf(b, i, k, key, b.version) {
      Wider(b, i, k, key, b.version);
      assert !SameAt(r.integrity, s.integrity, key) || !SameAt(s.integrity, t.integrity, key);
    }
    forall key | !SameAt(r.tags, t.tags, key) ensures IsOf(b, i, k, key, b.distTag) {
      Wider(b, i, k, key, b.distTag);
      assert !SameAt(r.tags, s.tags, key) || !SameAt(s.tags, t.tags, key);
    }
  }

  lemma Wider(b: Bundle, i: nat, k: nat, key: (string, string), second: string)
    requires i < k <= |b.packages|
    ensures IsOf(b, i, i + 1, key, second) || IsOf(b, i + 1, k, key, second) ==> IsOf(b, i, k, key, second)
  {
  }

  // ---------- Any number of interrupted runs ----------

  /** Successive publish attempts, each cut off after some number of registry writes. */
  ghost predicate Attempts(b: Bundle, history: seq<Registry>, lefts: seq<nat>) {
    && |history| == |lefts| + 1
    && forall k :: 0 <= k < |lefts| ==> history[k + 1] == Publish(b, history[k], lefts[k]).registry
  }

  lemma {:induction false} AttemptsAdvance(b: Bundle, history: seq<Registry>, lefts: seq<nat>)
    requires Attempts(b, history, lefts)
    ensures Advances(b, history[0], history[|history| - 1])
    decreases |lefts|
  {
    if lefts != [] {
      var n := |lefts| - 1;
      AttemptsAdvance(b, history[..n + 1], lefts[..n]);
      assert history[..n + 1][n] == history[n];
      PublishAdvances(b, 0, history[n], lefts[n]);
      AdvancesTransitive(b, history[0], history[n], history[n + 1]);
    }
  }

  lemma NoConflictAdvances(b: Bundle, r: Registry, s: Registry)
    requires ValidBundle(b) && Advances(b, r, s) && NoConflictFrom(b, r, 0)
    ensures NoConflictFrom(b, s, 0)
  {
  }

  /** There is only one verified registry a start can advance to. */
  lemma VerifiedIsUnique(b: Bundle, r: Registry, s: Registry, t: Registry)
    requires Advances(b, r, s) && Verified(b, s) && Advances(b, r, t) && Verified(b, t)
    ensures s == t
  {
  }

  /**
   * Publication is resumable: from a registry without conflicts, after any number of
   * interrupted attempts, a run that is not cut off succeeds and leaves the very
   * registry that a single uncut run leaves.
   */
  lemma Resumable(b: Bundle, history: seq<Registry>, lefts: seq<nat>, left: nat, left': nat)
    requires ValidBundle(b) && Attempts(b, history, lefts)
    requires NoConflictFrom(b, history[0], 0) && EntryAvailable(b, history[0])
    requires left >= 3 * |b.packages| + 1 && left' >= 3 * |b.packages| + 1
    ensures var resumed := Publish(b, history[|history| - 1], left);
            var single := Publish(b, history[0], left');
            && resumed.outcome == Done && single.outcome == Done
            && resumed.registry == single.registry
            && Verified(b, resumed.registry)
  {
    var r, s := history[0], history[|history| - 1];
    AttemptsAdvance(b, history, lefts);
    NoConflictAdvances(b, r, s);
    EntryStaysAvailable(b, r, s);
    UncutRunSucceeds(b, 0, s, left);
    UncutRunSucceeds(b, 0, r, left');
    DoneIsVerified(b, 0, s, left);
    DoneIsVerified(b, 0, r, left');
    PublishAdvances(b, 0, s, left);
    PublishAdvances(b, 0, r, left');
    AdvancesTransitive(b, r, s, Publish(b, s, left).registry);
    VerifiedIsUnique(b, r, Publish(b, s, left).registry, Publish(b, r, left').registry);
  }

  /** On a verified registry a further run writes nothing, even if no write is left to it. */
  lemma {:induction false} RerunWritesNothing(b: Bundle, i: nat, r: Registry, left: nat)
    requires ValidBundle(b) && i <= |b.packages| && Verified(b, r) && KnowsPackage(r, RELEASE_ENTRY_PACKAGE)
    ensures PublishFrom(b, i, r, left) == Run(r, left, Done)
    decreases |b.packages| - i
  {
    if i < |b.packages| {
      assert PackageVerified(b, r, b.packages[i]);
      assert KnowsPackage(r, b.packages[i].name) by {
        assert (b.packages[i].name, b.version) in r.integrity;
      }
      RerunWritesNothing(b, i + 1, r, left);
    }
  }

  // ---------- The entry tag moves last ----------

  ghost predicate LatestMoved(b: Bundle, r: Registry, s: Registry) {
    !TagIs(r, RELEASE_ENTRY_PACKAGE, LATEST_DIST_TAG, b.version)
        && TagIs(s, RELEASE_ENTRY_PACKAGE, LATEST_DIST_TAG, b.version)
  }

  /** `latest` is not the bundle's own tag, or no package is published after the entry. */
  ghost predicate EntryLast(b: Bundle) {
    b.distTag != LATEST_DIST_TAG
    || forall j :: 0 <= j < |b.packages| - 1 ==> b.packages[j].name != RELEASE_ENTRY_PACKAGE
  }

  /** In every state of a run, a newly moved `latest` means the whole bundle is published and tagged. */
  lemma {:induction false} LatestMovesLast(b: Bundle, i: nat, r: Registry, left: nat)
    requires ValidBundle(b) && EntryLast(b) && i <= |b.packages| && PrefixVerified(b, r, i)
    requires !TagIs(r, RELEASE_ENTRY_PACKAGE, LATEST_DIST_TAG, b.version)
    ensures LatestMoved(b, r, PublishFrom(b, i, r, left).registry) ==>
              VerifiedFrom(b, PublishFrom(b, i, r, left).registry, 0)
    decreases |b.packages| - i
  {
    if i < |b.packages| {
      var p := b.packages[i];
      var x := PublishOne(b, p, r, left);
      PublishOneOutcome(b, p, r, left);
      if x.outcome.Done? {
        PublishStep(b, i, r, left);
        if TagIs(x.registry, RELEASE_ENTRY_PACKAGE, LATEST_DIST_TAG, b.version) {
          LoopMovesLatest(b, p, r, left);
          KeepsVerified(b, i + 1, x.registry, x.left);
        } else {
          LatestMovesLast(b, i + 1, x.registry, x.left);
        }
      } else {
        LoopMovesLatest(b, p, r, left);
      }
    } else {
      KeepsVerified(b, i, r, left);
    }
  }

  /** Publishing a package moves the entry's `latest` only for the entry in a bundle tagged so. */
  lemma LoopMovesLatest(b: Bundle, p: PackedPackage, r: Registry, left: nat)
    ensures LatestMoved(b, r, PublishOne(b, p, r, left).registry) ==>
              p.name == RELEASE_ENTRY_PACKAGE && b.distTag == LATEST_DIST_TAG && PublishOne(b, p, r, left).outcome.Done?
  {
  }

  lemma KeepsVerified(b: Bundle, i: nat, r: Registry, left: nat)
    requires i <= |b.packages| && VerifiedFrom(b, r, 0)
    ensures VerifiedFrom(b, PublishFrom(b, i, r, left).registry, 0)
  {
    var s := PublishFrom(b, i, r, left).registry;
    PublishAdvances(b, i, r, left);
    forall j | 0 <= j < |b.packages| ensures PackageVerified(b, s, b.packages[j]) {
      AdvancesKeepsVerified(b, r, s, b.packages[j]);
    }
  }

  /** The same over any number of interrupted or repeated runs. */
  lemma {:induction false} LatestMovesLastOverAttempts(b: Bundle, history: seq<Registry>, lefts: seq<nat>)
    requires ValidBundle(b) && EntryLast(b) && Attempts(b, history, lefts)
    requires LatestMoved(b, history[0], history[|history| - 1])
    ensures VerifiedFrom(b, history[|history| - 1], 0)
    decreases |lefts|
  {
    if lefts != [] {
      var n := |lefts| - 1;
      if TagIs(history[n], RELEASE_ENTRY_PACKAGE, LATEST_DIST_TAG, b.version) {
        assert history[..n + 1][n] == history[n];
        LatestMovesLastOverAttempts(b, history[..n + 1], lefts[..n]);
        KeepsVerified(b, 0, history[n], lefts[n]);
      } else {
        LatestMovesLast(b, 0, history[n], lefts[n]);
      }
    }
  }

  ghost predicate AlwaysMovesLast(b: Bundle) {
    forall r, left: nat :: LatestMoved(b, r, Publish(b, r, left).registry)
        ==> VerifiedFrom(b, Publish(b, r, left).registry, 0)
  }

  /** Exactly when the entry tag is sure to move last. */
  lemma MovesLastExactly(b: Bundle)
    requires ValidBundle(b)
    ensures AlwaysMovesLast(b) <==> EntryLast(b)
  {
    if EntryLast(b) {
      forall r, left: nat | LatestMoved(b, r, Publish(b, r, left).registry)
        ensures VerifiedFrom(b, Publish(b, r, left).registry, 0)
      {
        LatestMovesLast(b, 0, r, left);
      }
    } else {
      EarlyEntryMovesEarly(b);
    }
  }

  /** A conflict on the last package stops a run that has already moved `latest`. */
  lemma EarlyEntryMovesEarly(b: Bundle)
    requires ValidBundle(b) && !EntryLast(b)
    ensures !AlwaysMovesLast(b)
  {
    var e :| 0 <= e < |b.packages| - 1 && b.packages[e].name == RELEASE_ENTRY_PACKAGE;
    var last := b.packages[|b.packages| - 1];
    var bad := last.integrity + "!";
    var r := Registry(map[(last.name, b.version) := bad], map[]);
    var left := 3 * |b.packages| + 1;
    assert b.packages[e] in b.packages;
    assert Conflicts(b, r, last);
    UncutRunSucceeds(b, 0, r, left);
    var s := Publish(b, r, left).registry;
    var c :| 0 <= c < |b.packages| && Conflicts(b, r, b.packages[c]) && PrefixVerified(b, s, c);
    assert c == |b.packages| - 1;
    assert PackageVerified(b, s, b.packages[e]);
    PublishAdvances(b, 0, r, left);
    assert s.integrity[(last.name, b.version)] == bad;
    assert !PackageVerified(b, s, last);
    assert LatestMoved(b, r, s) && !VerifiedFrom(b, s, 0);
  }
}
