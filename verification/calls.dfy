/**
 * Calls addressed to a runtime module through its metadata. The metadata maps
 * each module name to a one-byte module tag and each of its function names to
 * a one-byte call tag; an encoded call is the two tags followed by the
 * argument bytes. The lookup itself is a partial function that either finds
 * the names or fails with a metadata error.
 */
module Calls {
  import opened Bytes
  import opened Wrappers

  datatype ModuleMetadata = ModuleMetadata(index: Byte, calls: map<string, Byte>)

  type Metadata = map<string, ModuleMetadata>

  datatype MetadataError = ModuleNotFound(moduleName: string) | CallNotFound(functionName: string)

  /** A call before encoding: the (module, function) pair it addresses and its encoded arguments. */
  datatype Call = Call(moduleName: string, functionName: string, args: seq<Byte>)

  function LookupModule(md: Metadata, name: string): (r: Result<ModuleMetadata, MetadataError>)
    ensures r.Success? <==> name in md
    ensures r.Success? ==> r.value == md[name]
    ensures r.Failure? ==> r.error == ModuleNotFound(name)
  {
    if name in md then Success(md[name]) else Failure(ModuleNotFound(name))
  }

  /** Encodes a call to `functionName` of an already looked-up module. */
  function ModuleCall(m: ModuleMetadata, functionName: string, args: seq<Byte>): (r: Result<seq<Byte>, MetadataError>)
    ensures r.Success? <==> functionName in m.calls
    ensures r.Failure? ==> r.error == CallNotFound(functionName)
    ensures r.Success? ==> |r.value| == 2 + |args| && r.value[2..] == args
  {
    if functionName in m.calls then Success([m.index, m.calls[functionName]] + args)
    else Failure(CallNotFound(functionName))
  }

  /** Looks the module up, then encodes the call against it. */
  function EncodeCall(md: Metadata, c: Call): (r: Result<seq<Byte>, MetadataError>)
    ensures r.Success? <==> c.moduleName in md && c.functionName in md[c.moduleName].calls
    ensures r.Success? ==> |r.value| == 2 + |c.args|
    ensures r.Success? ==> r.value[0] == md[c.moduleName].index
    ensures r.Success? ==> r.value[1] == md[c.moduleName].calls[c.functionName]
    ensures r.Success? ==> r.value[2..] == c.args
  {
    var m :- LookupModule(md, c.moduleName);
    ModuleCall(m, c.functionName, c.args)
  }

  /** No two modules share a tag, and within a module no two functions share a tag. */
  predicate DistinctTags(md: Metadata) {
    && (forall a, b :: a in md && b in md && a != b ==> md[a].index != md[b].index)
    && (forall m, f, g :: m in md && f in md[m].calls && g in md[m].calls && f != g ==>
          md[m].calls[f] != md[m].calls[g])
  }

  /** Under metadata with distinct tags, distinct calls never share an encoding. */
  lemma EncodeCallInjective(md: Metadata, c1: Call, c2: Call)
    requires DistinctTags(md)
    requires EncodeCall(md, c1).Success? && EncodeCall(md, c2).Success?
    requires EncodeCall(md, c1).value == EncodeCall(md, c2).value
    ensures c1 == c2
  {
    var e := EncodeCall(md, c1).value;
    assert md[c1.moduleName].index == e[0] == md[c2.moduleName].index;
    assert c1.moduleName == c2.moduleName;
    var m := md[c1.moduleName];
    assert m.calls[c1.functionName] == e[1] == m.calls[c2.functionName];
    assert c1.args == e[2..] == c2.args;
  }
}
