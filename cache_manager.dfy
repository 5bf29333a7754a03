/**
 * The validity engine (RepositoryCacheManager): where a cache entry lives, when
 * it counts as cached, when it has expired, and how save persists it.
 */
module CacheManager {
  import opened JavaLang
  import opened FileSystem

  /** Prefix that marks the cache's own files in a shared directory. */
  const DefaultFileName: string := "r_p_c_"

  /**
   * What a generated proxy hands the manager: its cache directory
   * (getCacheDir), its file name (getFileName), the fingerprint of the current
   * arguments (getHashCode) and the declared time-to-live in seconds
   * (getCacheTime).
   */
  datatype ProxyCache = ProxyCache(cacheDir: string, fileName: string, hashCode: Int32, cacheTime: Int32)

  /** buildFile: the directory, the separator, the prefix and the file name. */
  function BuildFile(dir: string, fileName: string): string
  {
    dir + [Separator] + DefaultFileName + fileName
  }

  function CacheFile(proxy: ProxyCache): string
  {
    BuildFile(proxy.cacheDir, proxy.fileName)
  }

  /** containsHashCode: the file reads back as exactly the decimal fingerprint. */
  predicate HoldsHashCode(disk: Disk, file: string, hashCode: Int32)
  {
    ReadContent(disk, file) == DecimalString(hashCode)
  }

  /** isCached(File, int): the file exists and holds the fingerprint. */
  predicate Cached(disk: Disk, file: string, hashCode: Int32)
  {
    file in disk && HoldsHashCode(disk, file, hashCode)
  }

  /** The deadline isExpired compares with, in Java long arithmetic. */
  function Deadline(lastModified: Int64, cacheTime: Int32): Int64
  {
    Wrap64(lastModified + cacheTime * 1000)
  }

  /** x is a Java long value, so long arithmetic that yields it does not wrap. */
  predicate FitsInLong(x: int)
  {
    -0x8000_0000_0000_0000 <= x < 0x8000_0000_0000_0000
  }

  /** isExpired at time now: an entry that is not cached is expired; a cached one once now passes its deadline. */
  predicate Expired(disk: Disk, proxy: ProxyCache, now: Int64)
  {
    var file := CacheFile(proxy);
    if Cached(disk, file, proxy.hashCode) then now > Deadline(LastModified(disk, file), proxy.cacheTime)
    else true
  }

  /** The disk after save: the decimal fingerprint written if the file is absent. */
  function Saved(disk: Disk, proxy: ProxyCache, now: Int64): Disk
  {
    WriteIfAbsent(disk, CacheFile(proxy), Some(DecimalString(proxy.hashCode)), now)
  }

  // ---------------------------------------------------------------------------
  // Addressing

  /** For a fixed directory, distinct file names give distinct paths. */
  lemma BuildFileInjective(dir: string, a: string, b: string)
    ensures BuildFile(dir, a) == BuildFile(dir, b) <==> a == b
  {
    var prefix := dir + [Separator] + DefaultFileName;
    if BuildFile(dir, a) == BuildFile(dir, b) {
      assert a == BuildFile(dir, a)[|prefix|..];
      assert b == BuildFile(dir, b)[|prefix|..];
    }
  }

  /** A file name without a separator puts the entry directly inside the directory. */
  lemma BuildFileIsChild(dir: string, fileName: string)
    requires forall i :: 0 <= i < |fileName| ==> fileName[i] != Separator
    ensures IsChild(dir, BuildFile(dir, fileName))
  {
    var p := BuildFile(dir, fileName);
    var k := |dir| + 1 + |DefaultFileName|;
    assert p[..|dir|] == dir;
    forall i | |dir| < i < |p|
      ensures p[i] != Separator
    {
      if i < k {
        assert p[i] == DefaultFileName[i - |dir| - 1];
      } else {
        assert p[i] == fileName[i - k];
      }
    }
  }

  // ---------------------------------------------------------------------------
  // Validity

  /** The decimal form of a fingerprint contains no line terminator, so it reads back unchanged. */
  lemma DecimalIsLineFree(h: int)
    ensures LineFree(DecimalString(h))
  {
    var s := DecimalString(h);
    forall i | 0 <= i < |s|
      ensures !IsLineTerminator(s[i])
    {
      assert s[i] == '-' || '0' <= s[i] <= '9';
    }
  }

  /** Cached exactly when the path is a regular file whose lines, joined, are the decimal fingerprint; a directory never is. */
  lemma CachedMeansFileWithFingerprint(disk: Disk, file: string, h: Int32)
    ensures Cached(disk, file, h) <==>
              file in disk && disk[file].File? && JoinLines(ReadLines(disk[file].content)) == DecimalString(h)
  {
  }

  /** At most one fingerprint is cached in a file at any time. */
  lemma CachedFingerprintUnique(disk: Disk, file: string, h1: Int32, h2: Int32)
    requires Cached(disk, file, h1) && Cached(disk, file, h2)
    ensures h1 == h2
  {
    DecimalInjective(h1, h2);
  }

  /** An entry that is not cached is expired, whatever the time and the time-to-live. */
  lemma NotCachedIsExpired(disk: Disk, proxy: ProxyCache, now: Int64)
    requires !Cached(disk, CacheFile(proxy), proxy.hashCode)
    ensures Expired(disk, proxy, now)
  {
  }

  /** A cached entry is expired exactly when now is past the last write plus the time-to-live in milliseconds. */
  lemma CachedExpiry(disk: Disk, proxy: ProxyCache, now: Int64)
    requires Cached(disk, CacheFile(proxy), proxy.hashCode)
    requires FitsInLong(LastModified(disk, CacheFile(proxy)) + proxy.cacheTime * 1000)
    ensures Expired(disk, proxy, now) <==> now > LastModified(disk, CacheFile(proxy)) + proxy.cacheTime * 1000
  {
  }

  /** With a time-to-live of zero a cached entry is expired exactly when now is past its last write. */
  lemma ZeroTimeToLive(disk: Disk, proxy: ProxyCache, now: Int64)
    requires Cached(disk, CacheFile(proxy), proxy.hashCode) && proxy.cacheTime == 0
    ensures Expired(disk, proxy, now) <==> now > LastModified(disk, CacheFile(proxy))
  {
  }

  /** Once expired, an entry stays expired at every later time (long wrap-around included). */
  lemma ExpiryMonotone(disk: Disk, proxy: ProxyCache, now: Int64, later: Int64)
    requires now <= later && Expired(disk, proxy, now)
    ensures Expired(disk, proxy, later)
  {
  }

  // ---------------------------------------------------------------------------
  // Save

  /** Saving to an absent path caches exactly the saved fingerprint and no other. */
  lemma SaveThenCached(disk: Disk, proxy: ProxyCache, now: Int64, other: Int32)
    requires CacheFile(proxy) !in disk
    ensures Cached(Saved(disk, proxy, now), CacheFile(proxy), proxy.hashCode)
    ensures Cached(Saved(disk, proxy, now), CacheFile(proxy), other) <==> other == proxy.hashCode
  {
    DecimalIsLineFree(proxy.hashCode);
    ReadLineFree(DecimalString(proxy.hashCode));
    DecimalInjective(proxy.hashCode, other);
  }

  /** After saving to an absent path at t0, the entry is fresh until t0 plus the time-to-live and expired after it. */
  lemma SaveThenFreshUntilDeadline(disk: Disk, proxy: ProxyCache, t0: Int64, now: Int64)
    requires CacheFile(proxy) !in disk
    requires FitsInLong(t0 + proxy.cacheTime * 1000)
    ensures Expired(Saved(disk, proxy, t0), proxy, now) <==> now > t0 + proxy.cacheTime * 1000
  {
    SaveThenCached(disk, proxy, t0, proxy.hashCode);
  }

  /** At the instant of a save to an absent path the entry is not expired, even with a time-to-live of zero. */
  lemma FreshAtSaveInstant(disk: Disk, proxy: ProxyCache, t0: Int64)
    requires CacheFile(proxy) !in disk
    requires proxy.cacheTime >= 0 && FitsInLong(t0 + proxy.cacheTime * 1000)
    ensures !Expired(Saved(disk, proxy, t0), proxy, t0)
  {
    SaveThenFreshUntilDeadline(disk, proxy, t0, t0);
  }

  /** Saving to a path that already exists changes nothing: neither content nor timestamp. */
  lemma SaveOnExistingPath(disk: Disk, proxy: ProxyCache, now: Int64)
    requires CacheFile(proxy) in disk
    ensures Saved(disk, proxy, now) == disk
  {
  }

  /**
   * Saving a new fingerprint over an entry that holds another leaves the old
   * fingerprint cached, the new one uncached, and the timestamp untouched.
   */
  lemma SaveKeepsStaleFingerprint(disk: Disk, proxy: ProxyCache, previous: Int32, now: Int64)
    requires Cached(disk, CacheFile(proxy), previous) && previous != proxy.hashCode
    ensures Cached(Saved(disk, proxy, now), CacheFile(proxy), previous)
    ensures !Cached(Saved(disk, proxy, now), CacheFile(proxy), proxy.hashCode)
    ensures Expired(Saved(disk, proxy, now), proxy, now)
    ensures LastModified(Saved(disk, proxy, now), CacheFile(proxy)) == LastModified(disk, CacheFile(proxy))
  {
    DecimalInjective(previous, proxy.hashCode);
  }

  /** A save that replaces the entry's file whether or not it exists. */
  function SavedReplacing(disk: Disk, proxy: ProxyCache, now: Int64): Disk
  {
    disk[CacheFile(proxy) := File(DecimalString(proxy.hashCode), now)]
  }

  /**
   * A replacing save caches the saved fingerprint from any prior state, leaves
   * every other path alone, and restarts the time-to-live at the save.
   */
  lemma SavedReplacingIsFresh(disk: Disk, proxy: ProxyCache, now: Int64, t: Int64)
    requires FitsInLong(now + proxy.cacheTime * 1000)
    ensures Cached(SavedReplacing(disk, proxy, now), CacheFile(proxy), proxy.hashCode)
    ensures forall p :: p != CacheFile(proxy) ==>
              && (p in SavedReplacing(disk, proxy, now) <==> p in disk)
              && (p in disk ==> SavedReplacing(disk, proxy, now)[p] == disk[p])
    ensures Expired(SavedReplacing(disk, proxy, now), proxy, t) <==> t > now + proxy.cacheTime * 1000
  {
    DecimalIsLineFree(proxy.hashCode);
    ReadLineFree(DecimalString(proxy.hashCode));
  }

  /** Clearing an entry's directory leaves it uncached. */
  lemma ClearThenNotCached(disk: Disk, proxy: ProxyCache)
    requires forall i :: 0 <= i < |proxy.fileName| ==> proxy.fileName[i] != Separator
    ensures !Cached(Cleared(disk, proxy.cacheDir), CacheFile(proxy), proxy.hashCode)
  {
    var file := CacheFile(proxy);
    BuildFileIsChild(proxy.cacheDir, proxy.fileName);
    ClearedEffect(disk, proxy.cacheDir, file);
  }

  /** The manager; its file manager owns the file system. */
  class RepositoryCacheManager {
    const fileManager: FileManager

    constructor(fileManager: FileManager)
      ensures this.fileManager == fileManager
    {
      this.fileManager := fileManager;
    }

    /** hashCode(Object...): null gives 0, an empty array 1. */
    static method HashCode(objects: Option<seq<Option<Int32>>>) returns (hashCode: Int32)
      ensures objects.None? ==> hashCode == 0
      ensures objects.Some? ==> hashCode == Wrap32(Polynomial(ElementHashes(objects.value)))
      ensures hashCode == ArraysHashCode(objects)
    {
      if objects.None? {
        return 0;
      }
      var s := objects.value;
      hashCode := 1;
      for i := 0 to |s|
        invariant hashCode == HashFold(1, ElementHashes(s)[..i])
      {
        var elementHashCode: Int32;
        if s[i].None? {
          elementHashCode := 0;
        } else {
          elementHashCode := s[i].value;
        }
        assert ElementHashes(s)[..i + 1] == ElementHashes(s)[..i] + [elementHashCode];
        HashFoldSnoc(1, ElementHashes(s)[..i], elementHashCode);
        hashCode := Wrap32(31 * hashCode + elementHashCode);
      }
      assert ElementHashes(s)[..|s|] == ElementHashes(s);
      HashFoldIsPolynomial(ElementHashes(s));
    }

    /**
     * save: writes the decimal fingerprint to the entry's file. The source
     * runs the write on a new thread; here it completes before save returns.
     */
    method Save(proxy: ProxyCache, now: Int64)
      modifies fileManager
      ensures fileManager.disk == Saved(old(fileManager.disk), proxy, now)
      ensures CacheFile(proxy) !in old(fileManager.disk) ==>
                Cached(fileManager.disk, CacheFile(proxy), proxy.hashCode) &&
                LastModified(fileManager.disk, CacheFile(proxy)) == now
      ensures CacheFile(proxy) in old(fileManager.disk) ==> fileManager.disk == old(fileManager.disk)
    {
      var cacheFile := BuildFile(proxy.cacheDir, proxy.fileName);
      fileManager.WriteToFile(cacheFile, Some(DecimalString(proxy.hashCode)), now);
      if cacheFile !in old(fileManager.disk) {
        SaveThenCached(old(fileManager.disk), proxy, now, proxy.hashCode);
      }
    }

    /** containsHashCode: reads the file and compares with the decimal fingerprint. */
    method ContainsHashCode(file: string, hashCode: Int32) returns (b: bool)
      ensures b == HoldsHashCode(fileManager.disk, file, hashCode)
      ensures b ==> ReadContent(fileManager.disk, file) != ""
    {
      var content := fileManager.ReadFileContent(file);
      b := content == DecimalString(hashCode);
    }

    /** isCached(File, int). */
    method IsCached(file: string, hashCode: Int32) returns (b: bool)
      ensures b == Cached(fileManager.disk, file, hashCode)
      ensures b ==> file in fileManager.disk && fileManager.disk[file].File?
    {
      var present := fileManager.Exists(file);
      b := false;
      if present {
        b := ContainsHashCode(file, hashCode);
      }
    }

    /** isCached(RepositoryProxyCache). */
    method IsCachedProxy(proxy: ProxyCache) returns (b: bool)
      ensures b == Cached(fileManager.disk, CacheFile(proxy), proxy.hashCode)
    {
      var cacheFile := BuildFile(proxy.cacheDir, proxy.fileName);
      b := IsCached(cacheFile, proxy.hashCode);
    }

    /** isExpired, with System.currentTimeMillis() passed in as now. */
    method IsExpired(proxy: ProxyCache, now: Int64) returns (b: bool)
      ensures b == Expired(fileManager.disk, proxy, now)
      ensures !b ==> Cached(fileManager.disk, CacheFile(proxy), proxy.hashCode)
    {
      var cacheFile := BuildFile(proxy.cacheDir, proxy.fileName);
      var cached := IsCached(cacheFile, proxy.hashCode);
      if cached {
        var lastModifiedTime := fileManager.GetLastModifiedTime(cacheFile);
        var methodCacheTime: Int64 := proxy.cacheTime;
        return now > Wrap64(lastModifiedTime + methodCacheTime * 1000);
      }
      return true;
    }
  }
}
