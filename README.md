# RepositoryCache: the cache-validity core, in Dafny

This project models the runtime core of RepositoryCache and the build-time registry that names its entries.

- **Validity engine** (`RepositoryCacheManager`). A cache entry lives in the file `<cacheDir>/r_p_c_<fileName>`. It is *cached* when that file exists and reads back as exactly the decimal form of the fingerprint of the current arguments. It is *expired* when it is not cached, or when the current time is past the file's last-modified time plus the time-to-live in milliseconds. `save` writes the decimal fingerprint to the file. The fingerprint comes from `hashCode(Object...)`, which is the `Arrays.hashCode` polynomial with Java `int` wrap-around.
- **Storage adapter** (`FileManager`). It provides write-if-absent, line-joined reading, timestamps, existence, and clearing a directory's direct entries. All of these work over a file system that is a map from path strings to nodes (a regular file with text, or a directory; each has a `long` timestamp).
- **Method registry** (`ProxyClassGenerator`). It keys each annotated method by its name followed by the decimal hash of its parameter types. It refuses a duplicate key, and it derives the proxy class name, each factory method name and each cache file name.

Files:

- `java_lang.dfy` (module `JavaLang`): Java `int`/`long` wrap-around, `String.valueOf(int)` with its inverse, and the hash fold that `hashCode(Object...)` is proved against.
- `file_manager.dfy` (module `FileSystem`): `BufferedReader.readLine` splitting, the file-system spec functions and the `FileManager` class.
- `cache_manager.dfy` (module `CacheManager`): addressing, the validity predicates, the effect of `save`, and the `RepositoryCacheManager` class with its static `hashCode` loop.
- `proxy_class_generator.dfy` (module `ProxyGen`): keys, names, and the `ProxyClassGenerator` class.

Facts about the code that the model keeps:

- **`save` does not overwrite.** `save` goes through `writeToFile`, which writes only when the file is absent (FileManager.java:40). A second save to an existing entry stores neither the new fingerprint nor a new timestamp (see Findings).
- **TTL 0 at the save instant.** The model's write stamps the new file with exactly the `now` it is given. Under that assumption, an entry with a time-to-live of 0 is *not* expired at the very millisecond of its write, because `now > lastModified` is false, and it is expired one millisecond later (`CacheManager.FreshAtSaveInstant`, `CacheManager.ZeroTimeToLive`). A file system that keeps coarser timestamps makes every deadline earlier (see Left out).
- **Negative TTL.** `isExpired` does not reject a negative time-to-live. The deadline then falls before the write. `CacheManager.CachedExpiry` states the comparison for every `cacheTime`.
- **What the key hash covers.** The compiler passes a `List` of parameter types, not an array, to `hashCode(Object...)`. So the key's hash is that of a one-element array holding the list, `int(31 + List.hashCode())` (`ProxyGen.SignatureHashOfList`).

## Model

| member | source | states |
|---|---|---|
| `CacheManager.RepositoryCacheManager.HashCode` | repository-cache/src/main/java/com/kuassivi/annotation/RepositoryCacheManager.java:58-74 | A null array hashes to 0 and an empty one to 1. Otherwise the loop yields the polynomial 31^n + Σ e_i·31^(n-1-i) over the element hashes (null elements count 0), reduced to a Java int. |
| `JavaLang.ArraysHashCodeSnoc` | repository-cache/src/main/java/com/kuassivi/annotation/RepositoryCacheManager.java:62-73 | Fold law: hash(s + [e]) == int(31·hash(s) + hash(e)), null contributing 0. |
| `JavaLang.HashFoldIsPolynomial` | repository-cache/src/main/java/com/kuassivi/annotation/RepositoryCacheManager.java:62-73 | Wrapping at every step equals wrapping the exact polynomial once. |
| `JavaLang.EqualElementsEqualHash` | repository-cache/src/main/java/com/kuassivi/annotation/RepositoryCacheManager.java:48-53 | Arrays whose elements hash alike (as Arrays.equals arrays do) get the same hash code. |
| `JavaLang.DecimalRoundTrip` | repository-cache/src/main/java/com/kuassivi/annotation/RepositoryCacheManager.java:79 | Parsing String.valueOf(n) back gives n, for every integer including negatives and 0. |
| `JavaLang.DecimalInjective` | repository-cache/src/main/java/com/kuassivi/annotation/RepositoryCacheManager.java:102-105 | Two fingerprints have equal decimal forms if and only if they are equal. |
| `FileSystem.TerminatorAfter` | repository-cache/src/main/java/com/kuassivi/annotation/FileManager.java:74 | After a terminator-free prefix, readLine's line ends exactly where the rest starts with a terminator, or at the end. |
| `FileSystem.ReadLines` | repository-cache/src/main/java/com/kuassivi/annotation/FileManager.java:74 | No line that readLine yields contains "\n" or "\r". |
| `FileSystem.ReadLineFree` | repository-cache/src/main/java/com/kuassivi/annotation/FileManager.java:73-80 | Text without line terminators reads back, lines joined by "\n", as itself (the empty text as ""). |
| `FileSystem.ReadDropsTrailingTerminator` | repository-cache/src/main/java/com/kuassivi/annotation/FileManager.java:74-80 | A single trailing "\n" or "\r" is lost on reading, so reading is not an inverse of writing in general. |
| `FileSystem.ClearedEffect` | repository-cache/src/main/java/com/kuassivi/annotation/FileManager.java:132-140 | Clearing d removes every regular file directly inside d and each empty subdirectory, keeps non-empty subdirectories, and leaves every other entry unchanged. |
| `FileSystem.SetMtimeOnlyTimestamp` | repository-cache/src/main/java/com/kuassivi/annotation/FileManager.java:111-113 | Setting a timestamp keeps the set of paths, the other entries, the entry's kind and its content. |
| `FileSystem.FileManager.constructor` | repository-cache/src/main/java/com/kuassivi/annotation/FileManager.java:31 | The manager starts on the given file system. |
| `FileSystem.FileManager.WriteToFile` | repository-cache/src/main/java/com/kuassivi/annotation/FileManager.java:39-56 | An existing path (file or directory) is left unchanged. An absent one is added, stamped now, holding the content ("" for null), and nothing else changes. Terminator-free content reads back exactly. |
| `FileSystem.FileManager.ReadFileContent` | repository-cache/src/main/java/com/kuassivi/annotation/FileManager.java:65-91 | The loop returns the lines joined by "\n" without leading or trailing separator. It returns "" for a missing path or a directory, and the content itself when that has no terminators. It changes nothing. |
| `FileSystem.FileManager.GetLastModifiedTime` | repository-cache/src/main/java/com/kuassivi/annotation/FileManager.java:99-101 | Returns the entry's timestamp, or 0 for a missing path, without changing anything. |
| `FileSystem.FileManager.SetLastModifiedTime` | repository-cache/src/main/java/com/kuassivi/annotation/FileManager.java:111-113 | A negative time throws IllegalArgumentException. A missing path gives false. Otherwise it gives true and only that entry's timestamp changes. |
| `FileSystem.FileManager.Exists` | repository-cache/src/main/java/com/kuassivi/annotation/FileManager.java:121-123 | True exactly when the path names a file or directory. |
| `FileSystem.FileManager.ClearDirectory` | repository-cache/src/main/java/com/kuassivi/annotation/FileManager.java:132-140 | A missing path is a no-op. A regular file throws NullPointerException, because listFiles() is null. A directory ends in the cleared state, whatever order the loop deletes in. |
| `CacheManager.BuildFileInjective` | repository-cache/src/main/java/com/kuassivi/annotation/RepositoryCacheManager.java:114-123 | For a fixed directory, dir + "/" + "r_p_c_" + name is equal for two names exactly when the names are equal. |
| `CacheManager.BuildFileIsChild` | repository-cache/src/main/java/com/kuassivi/annotation/RepositoryCacheManager.java:114-123 | A file name without a separator places the entry directly inside the cache directory. |
| `CacheManager.DecimalIsLineFree` | repository-cache/src/main/java/com/kuassivi/annotation/RepositoryCacheManager.java:104 | The decimal form of a fingerprint has no line terminator. |
| `CacheManager.CachedMeansFileWithFingerprint` | repository-cache/src/main/java/com/kuassivi/annotation/RepositoryCacheManager.java:88-90 | Cached if and only if the path is a regular file whose joined lines equal the decimal fingerprint. A missing path or a directory is never cached. |
| `CacheManager.CachedFingerprintUnique` | repository-cache/src/main/java/com/kuassivi/annotation/RepositoryCacheManager.java:102-105 | A file caches at most one fingerprint: a different fingerprint is never reported as cached. |
| `CacheManager.NotCachedIsExpired` | repository-cache/src/main/java/com/kuassivi/annotation/RepositoryCacheManager.java:92-99 | An entry that is not cached is expired, for every time and time-to-live. |
| `CacheManager.CachedExpiry` | repository-cache/src/main/java/com/kuassivi/annotation/RepositoryCacheManager.java:95-97 | A cached entry is expired if and only if now > lastModified + cacheTime·1000, when that sum is a long. |
| `CacheManager.ZeroTimeToLive` | repository-cache/src/main/java/com/kuassivi/annotation/RepositoryCacheManager.java:95-97 | With cacheTime 0, a cached entry is expired if and only if now > lastModified. |
| `CacheManager.ExpiryMonotone` | repository-cache/src/main/java/com/kuassivi/annotation/RepositoryCacheManager.java:92-99 | Once expired at some time, an entry is expired at every later time, long wrap-around included. |
| `CacheManager.SaveThenCached` | repository-cache/src/main/java/com/kuassivi/annotation/RepositoryCacheManager.java:76-81 | After a save to an absent path, exactly the saved fingerprint is cached; every other one is not. |
| `CacheManager.SaveThenFreshUntilDeadline` | repository-cache/src/main/java/com/kuassivi/annotation/RepositoryCacheManager.java:92-99 | After a save at t0 to an absent path, the entry is expired at now if and only if now > t0 + cacheTime·1000. |
| `CacheManager.FreshAtSaveInstant` | repository-cache/src/main/java/com/kuassivi/annotation/RepositoryCacheManager.java:97 | At the instant of such a save, the entry is not expired for any non-negative time-to-live, 0 included. |
| `CacheManager.SaveOnExistingPath` | repository-cache/src/main/java/com/kuassivi/annotation/FileManager.java:40 | A save to a path that exists leaves the whole file system unchanged, content and timestamp included. |
| `CacheManager.SaveKeepsStaleFingerprint` | repository-cache/src/main/java/com/kuassivi/annotation/RepositoryCacheManager.java:76-81 | Saving a new fingerprint over a cached older one keeps the older one cached and the new one uncached, keeps the timestamp, and leaves the entry expired. |
| `CacheManager.SavedReplacingIsFresh` | repository-cache/src/main/java/com/kuassivi/annotation/RepositoryCacheManager.java:76-81 | A save that replaces the file caches the saved fingerprint from any prior state, leaves every other path's presence, content and timestamp unchanged, and restarts the time-to-live. |
| `CacheManager.ClearThenNotCached` | repository-cache/src/main/java/com/kuassivi/annotation/FileManager.java:132-140 | After the cache directory is cleared, no entry whose file name has no separator is cached. |
| `CacheManager.RepositoryCacheManager.constructor` | repository-cache/src/main/java/com/kuassivi/annotation/RepositoryCacheManager.java:32-34 | The manager works through the given file manager. |
| `CacheManager.RepositoryCacheManager.Save` | repository-cache/src/main/java/com/kuassivi/annotation/RepositoryCacheManager.java:76-81 | Writes the decimal fingerprint to the built path if it is absent, stamped now, after which it is cached. On an existing path it changes nothing. |
| `CacheManager.RepositoryCacheManager.ContainsHashCode` | repository-cache/src/main/java/com/kuassivi/annotation/RepositoryCacheManager.java:102-105 | True exactly when the file reads back as the decimal fingerprint, which is never "". |
| `CacheManager.RepositoryCacheManager.IsCached` | repository-cache/src/main/java/com/kuassivi/annotation/RepositoryCacheManager.java:88-90 | True exactly when the path exists and holds the fingerprint; then it is a regular file. |
| `CacheManager.RepositoryCacheManager.IsCachedProxy` | repository-cache/src/main/java/com/kuassivi/annotation/RepositoryCacheManager.java:83-86 | The entry's built path is cached with the proxy's fingerprint. |
| `CacheManager.RepositoryCacheManager.IsExpired` | repository-cache/src/main/java/com/kuassivi/annotation/RepositoryCacheManager.java:92-100 | Returns the expiry verdict at now. It is false only for a cached entry. |
| `ProxyGen.SignatureHashOfList` | repository-cache-compiler/src/main/java/com/kuassivi/compiler/ProxyClassGenerator.java:111-113 | The key hash is int(31 + List.hashCode()) of the parameter types, and the list hash is their polynomial. |
| `ProxyGen.OverloadKeys` | repository-cache-compiler/src/main/java/com/kuassivi/compiler/ProxyClassGenerator.java:111-113 | Two methods with the same name get the same key if and only if their signature hashes are equal. |
| `ProxyGen.KeysCollideAcrossNames` | repository-cache-compiler/src/main/java/com/kuassivi/compiler/ProxyClassGenerator.java:111-125 | "get" without parameters and "get3" with one parameter type hashing to -60 both get key "get32". So the key is not injective across names, and add reports a conflict for them. |
| `ProxyGen.CacheFileNameIsKeyed` | repository-cache-compiler/src/main/java/com/kuassivi/compiler/ProxyClassGenerator.java:197-199 | The cache file name is simpleClassName + "_" + the registry key. |
| `ProxyGen.FileNamesFollowKeys` | repository-cache-compiler/src/main/java/com/kuassivi/compiler/ProxyClassGenerator.java:197-199 | Within one class, two cache file names are equal if and only if the keys are. |
| `ProxyGen.ProxyClassGenerator.constructor` | repository-cache-compiler/src/main/java/com/kuassivi/compiler/ProxyClassGenerator.java:91-101 | The generated class name is simpleClassName + "ProxyCache", and the registry starts empty. |
| `ProxyGen.ProxyClassGenerator.Add` | repository-cache-compiler/src/main/java/com/kuassivi/compiler/ProxyClassGenerator.java:108-128 | A taken key throws the conflict and leaves the map and its order unchanged. A fresh key binds exactly that key to the method, at the end of the insertion order, growing the map by one. Keys stay distinct and each is its method's own key. |
| `ProxyGen.ProxyClassGenerator.Factories` | repository-cache-compiler/src/main/java/com/kuassivi/compiler/ProxyClassGenerator.java:186-204 | There is one factory per registered method, in insertion order. |
| `ProxyGen.FactoryNames` | repository-cache-compiler/src/main/java/com/kuassivi/compiler/ProxyClassGenerator.java:189-203 | The i-th factory is named "cache_" + the method name, passes simpleClassName + "_" + the i-th key as the file name, and passes the method's time-to-live. |
| `ProxyGen.FactoryFileNamesDistinct` | repository-cache-compiler/src/main/java/com/kuassivi/compiler/ProxyClassGenerator.java:197-199 | No two factories of one class pass the same cache file name. |
| `ProxyGen.RegisteredCachePathsDistinct` | repository-cache-compiler/src/main/java/com/kuassivi/compiler/ProxyClassGenerator.java:197-199 | No two registered methods of one class share a cache path in the same directory. |

## Findings

| source | as written | input that shows it | evidently intended | confidence | as-written member | corrected member |
|---|---|---|---|---|---|---|
| repository-cache/src/main/java/com/kuassivi/annotation/RepositoryCacheManager.java:76-81 | `save` goes through `writeToFile`, which writes only when the file is absent. A later save therefore stores neither the new fingerprint nor a new timestamp. | Save fingerprint 42, then save fingerprint 7 for the same entry. The file still holds 42, `isCached` with 7 stays false and `isExpired` stays true until the directory is cleared. Likewise, saving 42 again after its time-to-live does not make it fresh. | Each save replaces the file, so the latest fingerprint is cached and the time-to-live restarts at the save. | medium (the write-if-absent may be deliberate, relying on a directory clear on expiry); not executed | `CacheManager.SaveKeepsStaleFingerprint` | `CacheManager.SavedReplacingIsFresh` |

The `RepositoryCacheManager.Save` method keeps the source behaviour. `CacheManager.SavedReplacing` is the corrected effect.

## Left out

- The background thread of `save` (`CacheWriter` run by `new Thread(...).start()`) is not modelled: the write completes before `Save` returns. Races between concurrent saves, and between `clearDirectory` and a pending write, are not modelled.
- I/O failures are not modelled. Every write, read and `setLastModified` succeeds, including a write into a directory that does not exist, so the swallowed exceptions and `printStackTrace` never occur. The one failing `delete` that is modelled is the one on a non-empty directory.
- The process-wide singleton (`getInstance`) is not modelled: a manager is constructed explicitly around a file manager.
- Host-supplied values are parameters. `System.currentTimeMillis()` is the `now` argument and the cache directory is a string. `File.separator` is `'/'`. `Object.hashCode()` of arguments and of parameter types are given ints.
- `java.io.File` path normalisation (doubled or trailing separators) is not modelled: paths are strings taken as already normalised.
- File content is a string of characters. The charset decoding done by `FileReader` is not modelled.
- Code emission is not modelled: `generateCode` and `addProxyMethods` through JavaPoet, the `Elements` lookups in the constructor, and the package name. Only the names and the registry are.
- `ProxyGen.ProxyClassGenerator.constructor`: takes the simple class name directly instead of looking it up from the qualified name.
- `ProxyGen.ProxyClassGenerator.Add`: the conflict carries the method and class names but not the parameter types' `toString()`.
- `CacheManager.CachedExpiry`: states the plain comparison only when lastModified + cacheTime·1000 is a `long` value. Outside that range the model's `Expired` uses the wrapped sum, as Java does.
- `CacheManager.SaveThenFreshUntilDeadline`: the same restriction on t0 + cacheTime·1000.
- `FileSystem.FileManager.WriteToFile`: stamps the new file with exactly the `now` passed in. Timestamp resolution is not modelled: a file system or JDK that keeps whole seconds reports a last-modified time up to 999 ms before the write, which makes every deadline after a save earlier and a time-to-live of 0 expired already at the save instant.
