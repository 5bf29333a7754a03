/**
 * The build-time registry of cacheable methods (ProxyClassGenerator): how each
 * annotated method is keyed, how duplicates are refused, and the names the
 * generated proxy class, its factory methods and its cache files receive.
 */
module ProxyGen {
  import opened JavaLang
  import CacheManager

  /** Appended to the annotated class's simple name to name the proxy class. */
  const ClassSuffix: string := "ProxyCache"

  /** Prepended to a method's simple name to name its factory method. */
  const MethodPrefix: string := "cache_"

  /**
   * An annotated method as the processor sees it: its simple name, the
   * hashCode() of each of its parameter types, and the annotation's value
   * (the time-to-live in seconds).
   */
  datatype AnnotatedMethod = AnnotatedMethod(simpleName: string, parameterTypeHashes: seq<Int32>, cacheTime: Int32)

  datatype ProcessingException = Conflict(methodName: string, className: string)

  /** What one factory method of the proxy class is: its name, and the file name and time-to-live it passes on. */
  datatype Factory = Factory(methodName: string, fileName: string, cacheTime: Int32)

  /** List.hashCode() of the parameter-type list: the same recurrence from 1 over the elements' hashes. */
  function ParameterListHash(m: AnnotatedMethod): Int32
  {
    HashFold(1, m.parameterTypeHashes)
  }

  /**
   * RepositoryCacheManager.hashCode(getParameterTypes()): the list is not an
   * array, so it becomes the only element of the varargs array.
   */
  function SignatureHash(m: AnnotatedMethod): Int32
  {
    ArraysHashCode(Some([Some(ParameterListHash(m))]))
  }

  /** The registry key: the simple name followed by the decimal signature hash. */
  function MethodKey(m: AnnotatedMethod): string
  {
    m.simpleName + DecimalString(SignatureHash(m))
  }

  function GeneratedClassName(simpleClassName: string): string
  {
    simpleClassName + ClassSuffix
  }

  function FactoryMethodName(m: AnnotatedMethod): string
  {
    MethodPrefix + m.simpleName
  }

  /** The cache file name a factory method passes to the proxy it creates. */
  function CacheFileName(simpleClassName: string, m: AnnotatedMethod): string
  {
    simpleClassName + "_" + m.simpleName + DecimalString(SignatureHash(m))
  }

  function FactoryFor(simpleClassName: string, m: AnnotatedMethod): Factory
  {
    Factory(FactoryMethodName(m), CacheFileName(simpleClassName, m), m.cacheTime)
  }

  /** The signature hash is int(31 + List.hashCode()) of the parameter types, itself their polynomial. */
  lemma SignatureHashOfList(m: AnnotatedMethod)
    ensures SignatureHash(m) == Wrap32(31 + ParameterListHash(m))
    ensures ParameterListHash(m) == Wrap32(Polynomial(m.parameterTypeHashes))
  {
    assert ElementHashes([Some(ParameterListHash(m))]) == [ParameterListHash(m)];
    assert HashFold(1, [ParameterListHash(m)]) == HashFold(Wrap32(31 + ParameterListHash(m)), []);
    HashFoldIsPolynomial(m.parameterTypeHashes);
  }

  /** The cache file name is the class's simple name, "_" and the registry key. */
  lemma CacheFileNameIsKeyed(simpleClassName: string, m: AnnotatedMethod)
    ensures CacheFileName(simpleClassName, m) == simpleClassName + "_" + MethodKey(m)
  {
  }

  /** A common prefix can be cancelled from both sides of an equation. */
  lemma PrefixCancel(prefix: string, a: string, b: string)
    ensures prefix + a == prefix + b <==> a == b
  {
    if prefix + a == prefix + b {
      assert a == (prefix + a)[|prefix|..];
      assert b == (prefix + b)[|prefix|..];
    }
  }

  /** Within one class, the cache file names of two methods coincide exactly when their keys do. */
  lemma FileNamesFollowKeys(simpleClassName: string, m1: AnnotatedMethod, m2: AnnotatedMethod)
    ensures CacheFileName(simpleClassName, m1) == CacheFileName(simpleClassName, m2) <==> MethodKey(m1) == MethodKey(m2)
  {
    CacheFileNameIsKeyed(simpleClassName, m1);
    CacheFileNameIsKeyed(simpleClassName, m2);
    PrefixCancel(simpleClassName + "_", MethodKey(m1), MethodKey(m2));
  }

  /** Overloads of one name get distinct keys exactly when their signature hashes differ. */
  lemma OverloadKeys(m1: AnnotatedMethod, m2: AnnotatedMethod)
    requires m1.simpleName == m2.simpleName
    ensures MethodKey(m1) == MethodKey(m2) <==> SignatureHash(m1) == SignatureHash(m2)
  {
    var n := |m1.simpleName|;
    if MethodKey(m1) == MethodKey(m2) {
      assert DecimalString(SignatureHash(m1)) == MethodKey(m1)[n..];
      assert DecimalString(SignatureHash(m2)) == MethodKey(m2)[n..];
    }
    DecimalInjective(SignatureHash(m1), SignatureHash(m2));
  }

  /**
   * The key does not separate the name from the hash: a method "get" without
   * parameters and a method "get3" with one parameter type hashing to -60 both
   * get the key "get32", so registering both reports a conflict.
   */
  lemma KeysCollideAcrossNames(t: Int32)
    ensures MethodKey(AnnotatedMethod("get", [], t)) == "get32"
    ensures MethodKey(AnnotatedMethod("get3", [-60], t)) == "get32"
  {
    var a, b := AnnotatedMethod("get", [], t), AnnotatedMethod("get3", [-60], t);
    SignatureHashOfList(a);
    SignatureHashOfList(b);
    assert ParameterListHash(a) == 1;
    assert ParameterListHash(b) == HashFold(Wrap32(31 - 60), []) == -29;
    assert SignatureHash(a) == 32 && SignatureHash(b) == 2;
    assert DecimalString(32) == NatDigits(3) + [DigitChar(2)] == "32";
    assert DecimalString(2) == "2";
  }

  /** One generated proxy class, with the annotated methods registered so far. */
  class ProxyClassGenerator {
    const simpleClassName: string
    const generatedClassName: string
    /** The keys of methodsMap in insertion order (a LinkedHashMap's iteration order). */
    var keys: seq<string>
    var methodsMap: map<string, AnnotatedMethod>

    ghost predicate Valid()
      reads this
    {
      && generatedClassName == GeneratedClassName(simpleClassName)
      && (forall i, j :: 0 <= i < j < |keys| ==> keys[i] != keys[j])
      && (forall k :: k in methodsMap <==> k in keys)
      && (forall k :: k in methodsMap ==> MethodKey(methodsMap[k]) == k)
    }

    /** The qualified name's lookup is left to the caller: it passes the simple name. */
    constructor(simpleClassName: string)
      ensures Valid()
      ensures this.simpleClassName == simpleClassName
      ensures generatedClassName == simpleClassName + "ProxyCache"
      ensures keys == [] && methodsMap == map[]
    {
      this.simpleClassName := simpleClassName;
      this.generatedClassName := simpleClassName + ClassSuffix;
      keys := [];
      methodsMap := map[];
    }

    /** add: registers the method under its key, or reports a conflict if the key is taken. */
    method Add(methodToInsert: AnnotatedMethod) returns (r: Outcome<ProcessingException>)
      requires Valid()
      modifies this
      ensures Valid()
      ensures MethodKey(methodToInsert) in old(methodsMap) ==>
                && r == Threw(Conflict(methodToInsert.simpleName, simpleClassName))
                && keys == old(keys) && methodsMap == old(methodsMap)
      ensures MethodKey(methodToInsert) !in old(methodsMap) ==>
                && r == Completed
                && keys == old(keys) + [MethodKey(methodToInsert)]
                && methodsMap == old(methodsMap)[MethodKey(methodToInsert) := methodToInsert]
                && |methodsMap| == |old(methodsMap)| + 1
    {
      var hashCode := CacheManager.RepositoryCacheManager.HashCode(Some([Some(ParameterListHash(methodToInsert))]));
      var key := methodToInsert.simpleName + DecimalString(hashCode);
      if key in methodsMap {
        return Threw(Conflict(methodToInsert.simpleName, simpleClassName));
      }
      methodsMap := methodsMap[key := methodToInsert];
      keys := keys + [key];
      r := Completed;
    }

    /** The factory methods generateCode emits, one per registered method, in registration order. */
    function Factories(): (fs: seq<Factory>)
      requires Valid()
      reads this
      ensures |fs| == |keys| == |methodsMap|
    {
      assert |keys| == |methodsMap| by {
        DistinctSeqSize(keys, methodsMap.Keys);
      }
      seq(|keys|, i requires 0 <= i < |keys| && keys[i] in methodsMap reads this => FactoryFor(simpleClassName, methodsMap[keys[i]]))
    }
  }

  /** A sequence without repetitions has as many elements as the set it enumerates. */
  lemma {:induction false} DistinctSeqSize(s: seq<string>, ks: set<string>)
    requires forall i, j :: 0 <= i < j < |s| ==> s[i] != s[j]
    requires forall k :: k in ks <==> k in s
    ensures |s| == |ks|
    decreases |s|
  {
    if s != [] {
      var last := s[|s| - 1];
      var init := s[..|s| - 1];
      forall k | k in ks - {last}
        ensures k in init
      {
        var i :| 0 <= i < |s| && s[i] == k;
        assert i != |s| - 1;
        assert init[i] == k;
      }
      DistinctSeqSize(init, ks - {last});
    }
  }

  /**
   * The factory generateCode emits for the i-th registered method: named
   * "cache_" + its name, passing simpleClassName + "_" + its key as the file
   * name, and its time-to-live.
   */
  lemma FactoryNames(g: ProxyClassGenerator, i: int)
    requires g.Valid()
    requires 0 <= i < |g.Factories()|
    ensures g.keys[i] in g.methodsMap
    ensures g.Factories()[i].methodName == "cache_" + g.methodsMap[g.keys[i]].simpleName
    ensures g.Factories()[i].fileName == g.simpleClassName + "_" + g.keys[i]
    ensures g.Factories()[i].cacheTime == g.methodsMap[g.keys[i]].cacheTime
  {
    var m := g.methodsMap[g.keys[i]];
    assert g.Factories()[i] == FactoryFor(g.simpleClassName, m);
    CacheFileNameIsKeyed(g.simpleClassName, m);
  }

  /** Every factory of a valid generator passes a different cache file name. */
  lemma FactoryFileNamesDistinct(g: ProxyClassGenerator, i: int, j: int)
    requires g.Valid()
    requires 0 <= i < |g.Factories()| && 0 <= j < |g.Factories()| && i != j
    ensures g.Factories()[i].fileName != g.Factories()[j].fileName
  {
    var fs := g.Factories();
    var mi, mj := g.methodsMap[g.keys[i]], g.methodsMap[g.keys[j]];
    assert g.keys[i] != g.keys[j];
    FileNamesFollowKeys(g.simpleClassName, mi, mj);
  }

  /** Two registered methods of one class never share a cache path in the same directory. */
  lemma RegisteredCachePathsDistinct(g: ProxyClassGenerator, dir: string, i: int, j: int)
    requires g.Valid()
    requires 0 <= i < |g.Factories()| && 0 <= j < |g.Factories()| && i != j
    ensures CacheManager.BuildFile(dir, g.Factories()[i].fileName) != CacheManager.BuildFile(dir, g.Factories()[j].fileName)
  {
    FactoryFileNamesDistinct(g, i, j);
    CacheManager.BuildFileInjective(dir, g.Factories()[i].fileName, g.Factories()[j].fileName);
  }
}
