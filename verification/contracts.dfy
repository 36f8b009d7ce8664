/**
 * The contracts call family: `put_code`, `create` and `call`, each addressed to
 * the `Contracts` module, and the `CodeStored` event. Each builder serialises
 * its argument tuple field by field in declared order: integers (gas and
 * balances) as compact integers, byte vectors length-prefixed, hashes and
 * addresses raw. No argument value is checked; the only failures are a runtime
 * that lacks the `Contracts` capability and a metadata lookup that misses.
 */
module Contracts {
  import opened Bytes
  import opened Wrappers
  import opened Compact
  import opened Scale
  import opened Calls
  import opened Capabilities

  /** Gas is a u64. */
  type Gas = n: nat | n < 0x1_0000_0000_0000_0000
  const GasWidth: nat := 8

  const ModuleName: string := "Contracts"

  datatype ContractsCall =
    | PutCode(gasLimit: Gas, code: seq<Byte>)
    | Create(endowment: nat, gasLimit: Gas, codeHash: seq<Byte>, data: seq<Byte>)
    | CallContract(dest: seq<Byte>, value: nat, gasLimit: Gas, data: seq<Byte>)

  function FunctionName(c: ContractsCall): string {
    match c
    case PutCode(_, _) => "put_code"
    case Create(_, _, _, _) => "create"
    case CallContract(_, _, _, _) => "call"
  }

  /**
   * The arguments have the runtime's types: balances fit its balance type,
   * hashes and addresses have its widths, and vectors are short enough for
   * their length to be written as a u32.
   */
  predicate WellTyped(t: RuntimeTypes, c: ContractsCall) {
    match c
    case PutCode(_, code) =>
      |code| < MaxVecLen
    case Create(endowment, _, codeHash, data) =>
      endowment < Pow256(t.balanceWidth) && |codeHash| == t.hashLen && |data| < MaxVecLen
    case CallContract(dest, value, _, data) =>
      |dest| == t.addressLen && value < Pow256(t.balanceWidth) && |data| < MaxVecLen
  }

  /** Compact encoding of a gas amount. */
  function EncodeGas(g: Gas): (bs: seq<Byte>)
    ensures 1 <= |bs| <= 9
  {
    Pow256Table();
    Pow256Monotone(GasWidth, MaxBigLen);
    ByteLenAtMost(g, GasWidth);
    Encode(g)
  }

  function DecodeGas(bs: seq<Byte>): (r: Result<(Gas, seq<Byte>), CodecError>)
    ensures r.Success? ==> |r.value.1| < |bs|
  {
    Pow256Table();
    var (g, rest) :- Decode(bs, GasWidth);
    Success((g, rest))
  }

  /** Every gas value survives encoding and decoding, whatever follows it. */
  lemma GasRoundTrip(g: Gas, rest: seq<Byte>)
    ensures DecodeGas(EncodeGas(g) + rest) == Success((g, rest))
  {
    Pow256Table();
    DecodeEncode(g, GasWidth, rest);
  }

  lemma GasOfDecode(bs: seq<Byte>)
    requires DecodeGas(bs).Success?
    ensures bs == EncodeGas(DecodeGas(bs).value.0) + DecodeGas(bs).value.1
  {
    Pow256Table();
    EncodeOfDecode(bs, GasWidth);
  }

  /** The gas encoding is canonical: distinct gas values are written differently. */
  lemma GasEncodingInjective(a: Gas, b: Gas)
    requires a != b
    ensures EncodeGas(a) != EncodeGas(b)
  {
    Pow256Table();
    if EncodeGas(a) == EncodeGas(b) {
      GasRoundTrip(a, []);
      GasRoundTrip(b, []);
    }
  }

  /** Compact encoding of a balance of the runtime's balance type. */
  function EncodeBalance(t: RuntimeTypes, n: nat): (bs: seq<Byte>)
    requires ValidTypes(t) && n < Pow256(t.balanceWidth)
    ensures 1 <= |bs|
  {
    Pow256Monotone(t.balanceWidth, MaxBigLen);
    Encode(n)
  }

  function DecodeBalance(t: RuntimeTypes, bs: seq<Byte>): (r: Result<(nat, seq<Byte>), CodecError>)
    requires ValidTypes(t)
    ensures r.Success? ==> r.value.0 < Pow256(t.balanceWidth)
  {
    Decode(bs, t.balanceWidth)
  }

  lemma BalanceRoundTrip(t: RuntimeTypes, n: nat, rest: seq<Byte>)
    requires ValidTypes(t) && n < Pow256(t.balanceWidth)
    ensures DecodeBalance(t, EncodeBalance(t, n) + rest) == Success((n, rest))
  {
    DecodeEncode(n, t.balanceWidth, rest);
  }

  lemma BalanceOfDecode(t: RuntimeTypes, bs: seq<Byte>)
    requires ValidTypes(t)
    requires DecodeBalance(t, bs).Success?
    ensures bs == EncodeBalance(t, DecodeBalance(t, bs).value.0) + DecodeBalance(t, bs).value.1
  {
    EncodeOfDecode(bs, t.balanceWidth);
  }

  /** The argument tuple of `c`, serialised field by field. */
  function EncodeArgs(t: RuntimeTypes, c: ContractsCall): (bs: seq<Byte>)
    requires ValidTypes(t) && WellTyped(t, c)
    ensures c.PutCode? ==> EndsWith(bs, c.code) && |bs| > |c.code|
    ensures c.Create? ==> EndsWith(bs, c.data) && |bs| > |c.codeHash| + |c.data|
    ensures c.CallContract? ==> StartsWith(bs, c.dest) && EndsWith(bs, c.data) && |bs| > |c.dest| + |c.data|
  {
    match c
    case PutCode(gasLimit, code) =>
      var front, v := EncodeGas(gasLimit), EncodeVec(code);
      EndsWithConcat(front, v, code);
      front + v
    case Create(endowment, gasLimit, codeHash, data) =>
      var front, v := EncodeBalance(t, endowment) + EncodeGas(gasLimit) + codeHash, EncodeVec(data);
      EndsWithConcat(front, v, data);
      front + v
    case CallContract(dest, value, gasLimit, data) =>
      var front, v := dest + EncodeBalance(t, value) + EncodeGas(gasLimit), EncodeVec(data);
      assert front[..|dest|] == dest;
      StartsWithConcat(front, v, dest);
      EndsWithConcat(front, v, data);
      front + v
  }

  /** Why an argument tuple does not decode. */
  datatype ArgsError = UnknownFunction(functionName: string) | Malformed(error: CodecError)

  function Lift<T>(r: Result<T, CodecError>): Result<T, ArgsError> {
    match r
    case Success(v) => Success(v)
    case Failure(e) => Failure(Malformed(e))
  }

  /** Reads `put_code`'s (gas_limit, code) from the front of `bs`. */
  function DecodePutCode(bs: seq<Byte>): Result<(ContractsCall, seq<Byte>), ArgsError> {
    var (g, bs1) :- Lift(DecodeGas(bs));
    var (code, bs2) :- Lift(DecodeVec(bs1));
    Success((PutCode(g, code), bs2))
  }

  /** Reads `create`'s (endowment, gas_limit, code_hash, data) from the front of `bs`. */
  function DecodeCreate(t: RuntimeTypes, bs: seq<Byte>): Result<(ContractsCall, seq<Byte>), ArgsError>
    requires ValidTypes(t)
  {
    var (endowment, bs1) :- Lift(DecodeBalance(t, bs));
    var (g, bs2) :- Lift(DecodeGas(bs1));
    var (codeHash, bs3) :- Lift(DecodeFixed(bs2, t.hashLen));
    var (data, bs4) :- Lift(DecodeVec(bs3));
    Success((Create(endowment, g, codeHash, data), bs4))
  }

  /** Reads `call`'s (dest, value, gas_limit, data) from the front of `bs`. */
  function DecodeCall(t: RuntimeTypes, bs: seq<Byte>): Result<(ContractsCall, seq<Byte>), ArgsError>
    requires ValidTypes(t)
  {
    var (dest, bs1) :- Lift(DecodeFixed(bs, t.addressLen));
    var (value, bs2) :- Lift(DecodeBalance(t, bs1));
    var (g, bs3) :- Lift(DecodeGas(bs2));
    var (data, bs4) :- Lift(DecodeVec(bs3));
    Success((CallContract(dest, value, g, data), bs4))
  }

  /**
   * Splits the argument bytes of `functionName` back into its fields at their
   * boundaries, in the order the builder wrote them.
   */
  function DecodeArgs(t: RuntimeTypes, functionName: string, bs: seq<Byte>): (r: Result<(ContractsCall, seq<Byte>), ArgsError>)
    requires ValidTypes(t)
    ensures (r.Failure? && r.error.UnknownFunction?) <==> functionName !in {"put_code", "create", "call"}
  {
    if functionName == "put_code" then DecodePutCode(bs)
    else if functionName == "create" then DecodeCreate(t, bs)
    else if functionName == "call" then DecodeCall(t, bs)
    else Failure(UnknownFunction(functionName))
  }

  lemma PutCodeRoundTrip(g: Gas, code: seq<Byte>, rest: seq<Byte>)
    requires |code| < MaxVecLen
    ensures DecodePutCode(EncodeGas(g) + EncodeVec(code) + rest) == Success((PutCode(g, code), rest))
  {
    var e2 := EncodeVec(code) + rest;
    assert EncodeGas(g) + EncodeVec(code) + rest == EncodeGas(g) + e2;
    GasRoundTrip(g, e2);
    DecodeVecEncode(code, rest);
  }

  lemma CreateRoundTrip(t: RuntimeTypes, c: ContractsCall, rest: seq<Byte>)
    requires ValidTypes(t) && c.Create? && WellTyped(t, c)
    ensures DecodeCreate(t, EncodeArgs(t, c) + rest) == Success((c, rest))
  {
    var e4 := EncodeVec(c.data) + rest;
    var e3 := c.codeHash + e4;
    var e2 := EncodeGas(c.gasLimit) + e3;
    assert EncodeArgs(t, c) + rest == EncodeBalance(t, c.endowment) + e2;
    BalanceRoundTrip(t, c.endowment, e2);
    GasRoundTrip(c.gasLimit, e3);
    assert e3[..|c.codeHash|] == c.codeHash && e3[|c.codeHash|..] == e4;
    DecodeVecEncode(c.data, rest);
  }

  lemma CallRoundTrip(t: RuntimeTypes, c: ContractsCall, rest: seq<Byte>)
    requires ValidTypes(t) && c.CallContract? && WellTyped(t, c)
    ensures DecodeCall(t, EncodeArgs(t, c) + rest) == Success((c, rest))
  {
    var a2, a3, a4 := EncodeBalance(t, c.value), EncodeGas(c.gasLimit), EncodeVec(c.data);
    assert EncodeArgs(t, c) == c.dest + a2 + a3 + a4;
    Concat4(c.dest, a2, a3, a4, rest);
    var e4 := a4 + rest;
    var e3 := a3 + e4;
    var e2 := a2 + e3;
    assert (c.dest + e2)[..|c.dest|] == c.dest && (c.dest + e2)[|c.dest|..] == e2;
    BalanceRoundTrip(t, c.value, e3);
    GasRoundTrip(c.gasLimit, e4);
    DecodeVecEncode(c.data, rest);
  }

  /** Splitting a built argument tuple at its field boundaries recovers every field byte for byte. */
  lemma ArgsRoundTrip(t: RuntimeTypes, c: ContractsCall, rest: seq<Byte>)
    requires ValidTypes(t) && WellTyped(t, c)
    ensures DecodeArgs(t, FunctionName(c), EncodeArgs(t, c) + rest) == Success((c, rest))
  {
    match c
    case PutCode(g, code) =>
      PutCodeRoundTrip(g, code, rest);
    case Create(_, _, _, _) =>
      CreateRoundTrip(t, c, rest);
    case CallContract(_, _, _, _) =>
      CallRoundTrip(t, c, rest);
  }

  lemma Concat4(a: seq<Byte>, b: seq<Byte>, c: seq<Byte>, d: seq<Byte>, r: seq<Byte>)
    ensures a + (b + (c + (d + r))) == a + b + c + d + r
  {
  }

  lemma PutCodeOfDecode(t: RuntimeTypes, bs: seq<Byte>)
    requires ValidTypes(t)
    requires DecodePutCode(bs).Success?
    ensures var (c, rest) := DecodePutCode(bs).value;
      c.PutCode? && WellTyped(t, c) && bs == EncodeArgs(t, c) + rest
  {
    var (g, bs1) := DecodeGas(bs).value;
    GasOfDecode(bs);
    var (code, bs2) := DecodeVec(bs1).value;
    EncodeVecOfDecode(bs1);
    assert DecodePutCode(bs).value == (PutCode(g, code), bs2);
  }

  lemma CreateOfDecode(t: RuntimeTypes, bs: seq<Byte>)
    requires ValidTypes(t)
    requires DecodeCreate(t, bs).Success?
    ensures var (c, rest) := DecodeCreate(t, bs).value;
      c.Create? && WellTyped(t, c) && bs == EncodeArgs(t, c) + rest
  {
    var (endowment, bs1) := DecodeBalance(t, bs).value;
    BalanceOfDecode(t, bs);
    var (g, bs2) := DecodeGas(bs1).value;
    GasOfDecode(bs1);
    var (codeHash, bs3) := DecodeFixed(bs2, t.hashLen).value;
    var (data, bs4) := DecodeVec(bs3).value;
    EncodeVecOfDecode(bs3);
    var c := Create(endowment, g, codeHash, data);
    assert DecodeCreate(t, bs).value == (c, bs4);
    var a1, a2, a3, a4 := EncodeBalance(t, endowment), EncodeGas(g), codeHash, EncodeVec(data);
    assert bs == a1 + (a2 + (a3 + (a4 + bs4)));
    Concat4(a1, a2, a3, a4, bs4);
    assert EncodeArgs(t, c) == a1 + a2 + a3 + a4;
  }

  lemma CallOfDecode(t: RuntimeTypes, bs: seq<Byte>)
    requires ValidTypes(t)
    requires DecodeCall(t, bs).Success?
    ensures var (c, rest) := DecodeCall(t, bs).value;
      c.CallContract? && WellTyped(t, c) && bs == EncodeArgs(t, c) + rest
  {
    var (dest, bs1) := DecodeFixed(bs, t.addressLen).value;
    var (value, bs2) := DecodeBalance(t, bs1).value;
    BalanceOfDecode(t, bs1);
    var (g, bs3) := DecodeGas(bs2).value;
    GasOfDecode(bs2);
    var (data, bs4) := DecodeVec(bs3).value;
    EncodeVecOfDecode(bs3);
    var c := CallContract(dest, value, g, data);
    assert DecodeCall(t, bs).value == (c, bs4);
    var a1, a2, a3, a4 := dest, EncodeBalance(t, value), EncodeGas(g), EncodeVec(data);
    assert bs == a1 + (a2 + (a3 + (a4 + bs4)));
    Concat4(a1, a2, a3, a4, bs4);
    assert EncodeArgs(t, c) == a1 + a2 + a3 + a4;
  }

  /**
   * Whatever decodes as the arguments of a contracts function is exactly the
   * builder's encoding of a well-typed call to that function, followed by the
   * rest: there is no second way to write the same call.
   */
  lemma ArgsOfDecode(t: RuntimeTypes, functionName: string, bs: seq<Byte>)
    requires ValidTypes(t)
    requires DecodeArgs(t, functionName, bs).Success?
    ensures var (c, rest) := DecodeArgs(t, functionName, bs).value;
      && WellTyped(t, c)
      && FunctionName(c) == functionName
      && bs == EncodeArgs(t, c) + rest
  {
    if functionName == "put_code" {
      PutCodeOfDecode(t, bs);
    } else if functionName == "create" {
      CreateOfDecode(t, bs);
    } else {
      CallOfDecode(t, bs);
    }
  }

  /** A contracts call as handed to the metadata: module `Contracts`, the builder's function name, the argument tuple. */
  function ToCall(t: RuntimeTypes, c: ContractsCall): (r: Call)
    requires ValidTypes(t) && WellTyped(t, c)
  {
    Call(ModuleName, FunctionName(c), EncodeArgs(t, c))
  }

  datatype BuildError = MissingCapability(capability: Capability) | Metadata(error: MetadataError)

  /**
   * Builds the encoded call for `c` against runtime `rt` with metadata `md`:
   * the capability is checked first, then the `Contracts` module is looked up,
   * then the function within it.
   */
  function Build(rt: Runtime, md: Metadata, c: ContractsCall): (r: Result<seq<Byte>, BuildError>)
    requires ValidTypes(rt.types) && WellTyped(rt.types, c)
    ensures r.Failure? && r.error.MissingCapability? <==> !Satisfies(rt, Contracts)
    ensures r.Failure? && r.error.MissingCapability? ==>
      r.error.capability in {System, Balances} && r.error.capability !in rt.capabilities
    ensures r.Success? <==>
      Satisfies(rt, Contracts) && ModuleName in md && FunctionName(c) in md[ModuleName].calls
    ensures r.Failure? && r.error.Metadata? ==>
      r.error.error == ModuleNotFound(ModuleName) || r.error.error == CallNotFound(FunctionName(c))
  {
    match Missing(rt, Contracts)
    case Some(cap) => Failure(MissingCapability(cap))
    case None =>
      match EncodeCall(md, ToCall(rt.types, c))
      case Success(bs) => Success(bs)
      case Failure(e) => Failure(Metadata(e))
  }

  /**
   * A successful build is the `Contracts` module's tag, the tag of the
   * builder's function, and the argument tuple, which splits back into `c`.
   */
  lemma BuildTargetsContracts(rt: Runtime, md: Metadata, c: ContractsCall)
    requires ValidTypes(rt.types) && WellTyped(rt.types, c)
    requires Build(rt, md, c).Success?
    ensures var bs := Build(rt, md, c).value;
      && 2 <= |bs|
      && bs[0] == md[ModuleName].index
      && bs[1] == md[ModuleName].calls[FunctionName(c)]
      && DecodeArgs(rt.types, FunctionName(c), bs[2..]) == Success((c, []))
  {
    var bs := Build(rt, md, c).value;
    assert bs == [md[ModuleName].index, md[ModuleName].calls[FunctionName(c)]] + EncodeArgs(rt.types, c);
    ArgsRoundTrip(rt.types, c, []);
    assert EncodeArgs(rt.types, c) + [] == EncodeArgs(rt.types, c);
  }

  /**
   * The builders do not inspect argument values: two calls of the same
   * function succeed or fail together, with the same error.
   */
  lemma NoArgumentValidation(rt: Runtime, md: Metadata, c1: ContractsCall, c2: ContractsCall)
    requires ValidTypes(rt.types) && WellTyped(rt.types, c1) && WellTyped(rt.types, c2)
    requires FunctionName(c1) == FunctionName(c2)
    ensures Build(rt, md, c1).Success? == Build(rt, md, c2).Success?
    ensures Build(rt, md, c1).Failure? ==> Build(rt, md, c1).error == Build(rt, md, c2).error
  {
  }

  /** Events of the contracts module. */
  datatype ContractsEvent = CodeStored(hash: seq<Byte>)

  function EncodeEvent(e: ContractsEvent): seq<Byte> {
    match e
    case CodeStored(h) => [0] + h
  }

  /** Decodes an event of a runtime whose hashes are `hashLen` bytes: the variant index, then its fields. */
  function DecodeEvent(hashLen: nat, bs: seq<Byte>): (r: Result<(ContractsEvent, seq<Byte>), CodecError>)
    ensures r.Success? <==> 1 + hashLen <= |bs| && bs[0] == 0
    ensures 1 <= |bs| && bs[0] != 0 ==> r == Failure(NoSuchVariant)
    ensures r.Success? ==> r.value == (CodeStored(bs[1..1 + hashLen]), bs[1 + hashLen..])
  {
    if |bs| == 0 then Failure(NotEnoughData)
    else if bs[0] != 0 then Failure(NoSuchVariant)
    else
      var (h, rest) :- DecodeFixed(bs[1..], hashLen);
      assert bs[1..][..hashLen] == bs[1..1 + hashLen] && bs[1..][hashLen..] == bs[1 + hashLen..];
      Success((CodeStored(h), rest))
  }

  lemma EventRoundTrip(e: ContractsEvent, rest: seq<Byte>)
    ensures DecodeEvent(|e.hash|, EncodeEvent(e) + rest) == Success((e, rest))
  {
    var bs := EncodeEvent(e) + rest;
    assert bs[1..] == e.hash + rest;
    assert (e.hash + rest)[..|e.hash|] == e.hash && (e.hash + rest)[|e.hash|..] == rest;
  }

  lemma EncodeEventOfDecode(hashLen: nat, bs: seq<Byte>)
    requires DecodeEvent(hashLen, bs).Success?
    ensures bs == EncodeEvent(DecodeEvent(hashLen, bs).value.0) + DecodeEvent(hashLen, bs).value.1
  {
    assert bs == [bs[0]] + bs[1..];
  }
}
