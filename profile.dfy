/** Where the persistent web profile lives (src/chatview.cpp, the ChatView
    constructor): the storage and cache roots chosen from the writable
    locations, the fallback away from volatile mounts, the application
    suffix, and the isolated paths used when another process holds the
    profile lock. The writable locations, the home directory, the lock
    outcome, the process id and the clock are inputs. */
module Profile {
  import opened Strings
  import opened Paths

  const AppDataSuffix: string := "chatgpt-desktop-unix"
  const LockFileName: string := "profile.lock"

  /** The writable locations QStandardPaths reports; "" when it has none. */
  datatype Locations = Locations(appData: string, appLocalData: string, cache: string)

  /** An unusable root: empty, or under a mount whose contents do not survive a restart. */
  predicate IsVolatile(root: string) {
    root == [] || StartsWith(root, "/tmp") || StartsWith(root, "/run/") || StartsWith(root, "/var/tmp")
  }

  function StorageFallback(home: string): string {
    home + "/" + ".local" + "/" + "share"
  }

  function CacheFallback(home: string): string {
    home + "/" + ".cache"
  }

  /** The root a candidate location resolves to: the fallback when the
      candidate is volatile, then the suffix appended unless already there. */
  function ResolvedRoot(candidate: string, fallback: string): string {
    var base := if IsVolatile(candidate) then fallback else candidate;
    if EndsWith(base, AppDataSuffix) then base else base + "/" + AppDataSuffix
  }

  /** The storage candidate: the application data location, or the local one when that is empty. */
  function StorageCandidate(locations: Locations): string {
    if locations.appData == [] then locations.appLocalData else locations.appData
  }

  /** One root, as the constructor resolves it: the candidate is replaced
      by the fallback when volatile, then the suffix is appended when missing. */
  method ResolveRoot(candidate: string, fallback: string) returns (root: string)
    ensures root == ResolvedRoot(candidate, fallback)
    ensures EndsWith(root, AppDataSuffix)
  {
    root := candidate;
    if root == [] || StartsWith(root, "/tmp") || StartsWith(root, "/run/") || StartsWith(root, "/var/tmp") {
      root := fallback;
    }
    if !EndsWith(root, AppDataSuffix) {
      root := root + "/" + AppDataSuffix;
    }
    RootEndsWithSuffix(candidate, fallback);
  }

  /** The constructor's resolution of the storage and cache roots. */
  method ResolveProfileRoots(locations: Locations, home: string) returns (storageRoot: string, cacheRoot: string)
    ensures storageRoot == ResolvedRoot(StorageCandidate(locations), StorageFallback(home))
    ensures cacheRoot == ResolvedRoot(locations.cache, CacheFallback(home))
    ensures EndsWith(storageRoot, AppDataSuffix) && EndsWith(cacheRoot, AppDataSuffix)
  {
    var candidate := locations.appData;
    if candidate == [] {
      candidate := locations.appLocalData;
    }
    storageRoot := ResolveRoot(candidate, StorageFallback(home));
    cacheRoot := ResolveRoot(locations.cache, CacheFallback(home));
  }

  /** Every resolved root ends with the application suffix. */
  lemma RootEndsWithSuffix(candidate: string, fallback: string)
    ensures EndsWith(ResolvedRoot(candidate, fallback), AppDataSuffix)
  {
    var base := if IsVolatile(candidate) then fallback else candidate;
    if !EndsWith(base, AppDataSuffix) {
      EndsWithConcat(base + "/", AppDataSuffix);
    }
  }

  /** A usable candidate is kept: the root is the candidate itself, or the
      candidate with "/chatgpt-desktop-unix" appended. */
  lemma StableCandidateKept(candidate: string, fallback: string)
    requires !IsVolatile(candidate)
    ensures ResolvedRoot(candidate, fallback)
            == if EndsWith(candidate, AppDataSuffix) then candidate else candidate + "/" + AppDataSuffix
  {
  }

  /** A volatile or empty candidate is replaced: storage goes under
      ~/.local/share and the cache under ~/.cache, whatever the candidate was. */
  lemma VolatileCandidateReplaced(candidate: string, home: string)
    requires IsVolatile(candidate)
    ensures ResolvedRoot(candidate, StorageFallback(home)) == StorageFallback(home) + "/" + AppDataSuffix
    ensures ResolvedRoot(candidate, CacheFallback(home)) == CacheFallback(home) + "/" + AppDataSuffix
  {
    var s, c := StorageFallback(home), CacheFallback(home);
    assert s[|s| - 1] == 'e' && c[|c| - 1] == 'e';
    assert !EndsWith(s, AppDataSuffix) && !EndsWith(c, AppDataSuffix);
  }

  /** A location that is not volatile and is not "/run" stays not volatile once
      "/chatgpt-desktop-unix" is appended. */
  lemma AppendKeepsStable(base: string)
    requires !IsVolatile(base) && base != "/run"
    ensures !IsVolatile(base + "/" + AppDataSuffix)
  {
    var x := base + "/" + AppDataSuffix;
    assert x[..|base|] == base;
    assert x[|base|] == '/';
    assert |base| >= 4 ==> x[..4] == base[..4];
    assert |base| >= 5 ==> x[..5] == base[..5];
    assert |base| >= 8 ==> x[..8] == base[..8];
    if |base| == 4 {
      assert x[5] == 'c';
    }
  }

  /** Resolving a root a second time changes nothing, provided the candidate
      is not "/run"; any fallback will do, since a volatile root obtained from
      the fallback is replaced by that same root again. */
  lemma ResolutionIdempotent(candidate: string, fallback: string)
    requires candidate != "/run"
    ensures ResolvedRoot(ResolvedRoot(candidate, fallback), fallback) == ResolvedRoot(candidate, fallback)
  {
    RootEndsWithSuffix(candidate, fallback);
    if !IsVolatile(candidate) && !EndsWith(candidate, AppDataSuffix) {
      AppendKeepsStable(candidate);
    }
  }

  /** The one usable location that does not resolve idempotently: "/run" passes
      the volatile test, but its root "/run/chatgpt-desktop-unix" does not. */
  lemma RunIsNotIdempotent(home: string)
    ensures ResolvedRoot("/run", StorageFallback(home)) == "/run/" + AppDataSuffix
    ensures IsVolatile(ResolvedRoot("/run", StorageFallback(home)))
  {
    var r := "/run" + "/" + AppDataSuffix;
    assert "/run"[..4] != "/tmp" by { assert "/run"[1] == 'r'; }
    assert r[..5] == "/run/";
    assert r[|r| - |AppDataSuffix|..] == AppDataSuffix;
    assert "/run"[1] != AppDataSuffix[|AppDataSuffix| - 3];
  }

  /** The name of the isolated profile directory: "isolated-<pid>-<ms>". */
  function IsolatedSuffix(pid: nat, ms: int): string {
    "isolated-" + (NatDigits(pid) + ("-" + Decimal(ms)))
  }

  function LockPath(storageRoot: string): string {
    JoinPath(storageRoot, LockFileName)
  }

  /** The storage and cache paths the profile is given: the primary roots
      when this process holds the lock, otherwise both roots joined with the
      same isolated directory name. */
  function ActiveRoots(storageRoot: string, cacheRoot: string, lockAcquired: bool, pid: nat, ms: int): (string, string) {
    if lockAcquired then (storageRoot, cacheRoot)
    else
      var isolated := IsolatedSuffix(pid, ms);
      (JoinPath(storageRoot, isolated), JoinPath(cacheRoot, isolated))
  }

  lemma SuffixLast(root: string)
    requires EndsWith(root, AppDataSuffix)
    ensures root != [] && root[|root| - 1] == 'x'
  {
    assert root[|root| - 1] == root[|root| - |AppDataSuffix|..][|AppDataSuffix| - 1];
  }

  /** The isolated paths are children of the primary roots, in a directory of
      their own that is not the lock file. */
  lemma IsolatedRootsAreChildren(storageRoot: string, cacheRoot: string, pid: nat, ms: int)
    requires EndsWith(storageRoot, AppDataSuffix) && EndsWith(cacheRoot, AppDataSuffix)
    ensures var isolated := IsolatedSuffix(pid, ms);
            ActiveRoots(storageRoot, cacheRoot, false, pid, ms)
            == (storageRoot + "/" + isolated, cacheRoot + "/" + isolated)
    ensures ActiveRoots(storageRoot, cacheRoot, false, pid, ms).0 != storageRoot
    ensures ActiveRoots(storageRoot, cacheRoot, false, pid, ms).1 != cacheRoot
    ensures ActiveRoots(storageRoot, cacheRoot, false, pid, ms).0 != LockPath(storageRoot)
  {
    var isolated := IsolatedSuffix(pid, ms);
    SuffixLast(storageRoot);
    SuffixLast(cacheRoot);
    JoinPlain(storageRoot, isolated);
    JoinPlain(storageRoot, LockFileName);
    JoinPlain(cacheRoot, isolated);
    var a, b := storageRoot + "/" + isolated, storageRoot + "/" + LockFileName;
    assert a[|storageRoot| + 1] == 'i' && b[|storageRoot| + 1] == 'p';
  }

  /** With the lock held, the profile uses the primary roots. */
  lemma LockedUsesPrimary(storageRoot: string, cacheRoot: string, pid: nat, ms: int)
    ensures ActiveRoots(storageRoot, cacheRoot, true, pid, ms) == (storageRoot, cacheRoot)
  {
  }

  lemma DigitsThenDash(d: string, rest: string)
    requires forall i :: 0 <= i < |d| ==> IsDigit(d[i])
    ensures PrefixUntil(d + ("-" + rest), {'-'}) == d
  {
    PrefixUntilStopsAt(d, "-" + rest, {'-'});
  }

  lemma IsolatedTail(pid: nat, ms: int)
    ensures IsolatedSuffix(pid, ms)[|"isolated-"|..] == NatDigits(pid) + ("-" + Decimal(ms))
  {
    StartsWithConcat("isolated-", NatDigits(pid) + ("-" + Decimal(ms)));
  }

  /** The isolated directory name determines the process id. */
  lemma IsolatedSuffixDeterminesPid(pid1: nat, ms1: int, pid2: nat, ms2: int)
    requires IsolatedSuffix(pid1, ms1) == IsolatedSuffix(pid2, ms2)
    ensures pid1 == pid2
  {
    IsolatedTail(pid1, ms1);
    IsolatedTail(pid2, ms2);
    DigitsThenDash(NatDigits(pid1), Decimal(ms1));
    DigitsThenDash(NatDigits(pid2), Decimal(ms2));
    NatDigitsInjective(pid1, pid2);
  }

  /** Different names give different children of the same root. */
  lemma ChildNamesDiffer(root: string, a: string, b: string)
    requires a != b
    ensures root + "/" + a != root + "/" + b
  {
    var p := root + "/";
    assert root + "/" + a == p + a && root + "/" + b == p + b;
    assert (p + a)[|p|..] == a && (p + b)[|p|..] == b;
  }

  /** Two processes of different ids starting on the same primary storage
      root, at most one of which obtains the lock, share neither the storage
      path nor the cache path. */
  lemma ConcurrentStartsGetDistinctProfiles(storageRoot: string, cacheRoot: string,
                                            locked1: bool, pid1: nat, ms1: int,
                                            locked2: bool, pid2: nat, ms2: int)
    requires EndsWith(storageRoot, AppDataSuffix) && EndsWith(cacheRoot, AppDataSuffix)
    requires !(locked1 && locked2) && pid1 != pid2
    ensures ActiveRoots(storageRoot, cacheRoot, locked1, pid1, ms1).0
            != ActiveRoots(storageRoot, cacheRoot, locked2, pid2, ms2).0
    ensures ActiveRoots(storageRoot, cacheRoot, locked1, pid1, ms1).1
            != ActiveRoots(storageRoot, cacheRoot, locked2, pid2, ms2).1
  {
    IsolatedRootsAreChildren(storageRoot, cacheRoot, pid1, ms1);
    IsolatedRootsAreChildren(storageRoot, cacheRoot, pid2, ms2);
    if !locked1 && !locked2 {
      var i1, i2 := IsolatedSuffix(pid1, ms1), IsolatedSuffix(pid2, ms2);
      if i1 == i2 {
        IsolatedSuffixDeterminesPid(pid1, ms1, pid2, ms2);
      }
      ChildNamesDiffer(storageRoot, i1, i2);
      ChildNamesDiffer(cacheRoot, i1, i2);
    }
  }
}
