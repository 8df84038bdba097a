/** The ports of target addresses are 64-bit in the custom resource and 32-bit in the SDK. */
module TargetAddresses {
  import opened Wrappers

  newtype int64 = x: int | -0x8000_0000_0000_0000 <= x < 0x8000_0000_0000_0000
  newtype int32 = x: int | -0x8000_0000 <= x < 0x8000_0000

  const MAX_INT32: int64 := 0x7fff_ffff
  const MIN_INT32: int64 := -0x8000_0000

  /** Addresses in the custom resource. */
  datatype TargetAddress = TargetAddress(ip: Option<string>, ipv6: Option<string>, port: Option<int64>)

  /** Addresses in the SDK. */
  datatype SdkTargetAddress = SdkTargetAddress(ip: Option<string>, ipv6: Option<string>, port: Option<int32>)

  /** The Go conversion int32(x), which keeps the low 32 bits. */
  function Truncate(x: int64): int32 {
    ((x as int + 0x8000_0000) % 0x1_0000_0000 - 0x8000_0000) as int32
  }

  ghost predicate Fits(t: TargetAddress) {
    t.port.Some? ==> MIN_INT32 <= t.port.value <= MAX_INT32
  }

  ghost predicate AllFit(targets: seq<TargetAddress>) {
    forall t :: t in targets ==> Fits(t)
  }

  /** What reading an SDK address back gives: the same fields, the port widened. */
  ghost function Widened(t: SdkTargetAddress): TargetAddress {
    TargetAddress(t.ip, t.ipv6, if t.port.Some? then Some(t.port.value as int as int64) else None)
  }

  /** The two forms agree field by field. */
  ghost predicate SameAddress(sdk: SdkTargetAddress, t: TargetAddress) {
    && sdk.ip == t.ip && sdk.ipv6 == t.ipv6 && sdk.port.Some? == t.port.Some?
    && (t.port.Some? ==> sdk.port.value as int == t.port.value as int)
  }

  ghost predicate ReadsBackAs(sdk: seq<SdkTargetAddress>, targets: seq<TargetAddress>) {
    |sdk| == |targets| && forall i :: 0 <= i < |sdk| ==> Widened(sdk[i]) == targets[i]
  }

  /** Without the range check the conversion would silently alter exactly the ports it refuses. */
  lemma {:induction false} TruncationExactIffFits(p: int64)
    ensures Truncate(p) as int == p as int <==> MIN_INT32 <= p <= MAX_INT32
  {
  }

  /** What a request says about its targets is fixed by how it reads back. */
  lemma {:induction false} ReadsBackOnce(a: seq<SdkTargetAddress>, b: seq<SdkTargetAddress>,
                                         targets: seq<TargetAddress>)
    requires ReadsBackAs(a, targets) && ReadsBackAs(b, targets)
    ensures a == b
  {
    forall i | 0 <= i < |a| ensures a[i] == b[i] {
      assert Widened(a[i]) == Widened(b[i]);
    }
  }

  /** And it reads back as one list only. */
  lemma {:induction false} ReadBackUnique(sdk: seq<SdkTargetAddress>, a: seq<TargetAddress>, b: seq<TargetAddress>)
    requires ReadsBackAs(sdk, a) && ReadsBackAs(sdk, b)
    ensures a == b
  {
    assert forall i :: 0 <= i < |a| ==> a[i] == b[i];
  }

  /** No list with a port out of range has any SDK form. */
  lemma {:induction false} ReadsBackFits(sdk: seq<SdkTargetAddress>, targets: seq<TargetAddress>)
    requires ReadsBackAs(sdk, targets)
    ensures AllFit(targets)
  {
    forall t | t in targets ensures Fits(t) {
      var i :| 0 <= i < |targets| && targets[i] == t;
      assert Widened(sdk[i]) == t;
    }
  }

  ghost function Narrowed(t: TargetAddress): SdkTargetAddress {
    SdkTargetAddress(t.ip, t.ipv6, if t.port.Some? then Some(Truncate(t.port.value)) else None)
  }

  /** The lists that are accepted are exactly those that the SDK can hold at all: nothing is refused
      without need. */
  lemma {:induction false} RepresentableIffFits(targets: seq<TargetAddress>)
    ensures (exists sdk :: ReadsBackAs(sdk, targets)) <==> AllFit(targets)
  {
    if sdk :| ReadsBackAs(sdk, targets) {
      ReadsBackFits(sdk, targets);
    }
    if AllFit(targets) {
      var sdk := seq(|targets|, i requires 0 <= i < |targets| => Narrowed(targets[i]));
      forall i | 0 <= i < |targets| ensures Widened(sdk[i]) == targets[i] {
        assert targets[i] in targets;
      }
      assert ReadsBackAs(sdk, targets);
    }
  }

  /** The target part of newCreateRequestPayload; a nil list stays nil. */
  method NewCreateTargetIps(targets: Option<seq<TargetAddress>>) returns (ok: bool, sdk: Option<seq<SdkTargetAddress>>)
    ensures ok <==> (targets.Some? ==> AllFit(targets.value))
    ensures ok ==> sdk.Some? == targets.Some?
    ensures ok && targets.Some? ==> ReadsBackAs(sdk.value, targets.value)
    ensures ok && targets.Some? ==> forall i :: 0 <= i < |targets.value| ==> SameAddress(sdk.value[i], targets.value[i])
  {
    if targets.None? {
      return true, None;
    }
    var f5: seq<SdkTargetAddress> := [];
    for i := 0 to |targets.value|
      invariant ReadsBackAs(f5, targets.value[..i])
      invariant AllFit(targets.value[..i])
    {
      var f5iter := targets.value[i];
      var f5elem := SdkTargetAddress(None, None, None);
      if f5iter.ip.Some? { f5elem := f5elem.(ip := f5iter.ip); }
      if f5iter.ipv6.Some? { f5elem := f5elem.(ipv6 := f5iter.ipv6); }
      if f5iter.port.Some? {
        var portCopy0 := f5iter.port.value;
        if portCopy0 > MAX_INT32 || portCopy0 < MIN_INT32 {
          assert f5iter in targets.value;
          return false, None;
        }
        TruncationExactIffFits(portCopy0);
        f5elem := f5elem.(port := Some(Truncate(portCopy0)));
      }
      f5 := f5 + [f5elem];
      assert targets.value[..i + 1] == targets.value[..i] + [f5iter];
    }
    assert targets.value[..|targets.value|] == targets.value;
    return true, Some(f5);
  }

  /** The target part of syncResolverRuleConfig; a nil list and an empty one both stay empty. */
  method NewUpdateTargetIps(targets: seq<TargetAddress>) returns (ok: bool, sdk: seq<SdkTargetAddress>)
    ensures ok <==> AllFit(targets)
    ensures ok ==> ReadsBackAs(sdk, targets)
    ensures ok ==> forall i :: 0 <= i < |targets| ==> SameAddress(sdk[i], targets[i])
  {
    sdk := [];
    for i := 0 to |targets|
      invariant ReadsBackAs(sdk, targets[..i])
      invariant AllFit(targets[..i])
    {
      var tip := targets[i];
      var elem := SdkTargetAddress(None, None, None);
      if tip.ip.Some? { elem := elem.(ip := tip.ip); }
      if tip.ipv6.Some? { elem := elem.(ipv6 := tip.ipv6); }
      if tip.port.Some? {
        if tip.port.value > MAX_INT32 || tip.port.value < MIN_INT32 {
          assert tip in targets;
          return false, sdk;
        }
        TruncationExactIffFits(tip.port.value);
        elem := elem.(port := Some(Truncate(tip.port.value)));
      }
      sdk := sdk + [elem];
      assert targets[..i + 1] == targets[..i] + [tip];
    }
    assert targets[..|targets|] == targets;
    return true, sdk;
  }

  /** The target part of sdkFind and sdkCreate: the answer read back into the resource. */
  method ReadTargetIps(sdk: Option<seq<SdkTargetAddress>>) returns (targets: Option<seq<TargetAddress>>)
    ensures targets.Some? == sdk.Some?
    ensures sdk.Some? ==> ReadsBackAs(sdk.value, targets.value)
    ensures sdk.Some? ==> forall i :: 0 <= i < |sdk.value| ==> SameAddress(sdk.value[i], targets.value[i])
  {
    if sdk.None? {
      return None;
    }
    var f13: seq<TargetAddress> := [];
    for i := 0 to |sdk.value|
      invariant ReadsBackAs(sdk.value[..i], f13)
    {
      var f13iter := sdk.value[i];
      var f13elem := TargetAddress(None, None, None);
      if f13iter.ip.Some? { f13elem := f13elem.(ip := f13iter.ip); }
      if f13iter.ipv6.Some? { f13elem := f13elem.(ipv6 := f13iter.ipv6); }
      if f13iter.port.Some? { f13elem := f13elem.(port := Some(f13iter.port.value as int as int64)); }
      f13 := f13 + [f13elem];
    }
    return Some(f13);
  }

  /** What is written is what is read: the create payload, stored by the service and read again,
      gives the original list, nil or not, with no port altered. */
  method WriteThenRead(targets: Option<seq<TargetAddress>>) returns (ok: bool, again: Option<seq<TargetAddress>>)
    ensures ok <==> (targets.Some? ==> AllFit(targets.value))
    ensures ok ==> again == targets
  {
    var sdk;
    ok, sdk := NewCreateTargetIps(targets);
    if ok {
      again := ReadTargetIps(sdk);
      assert targets.Some? ==> again.value == targets.value;
    } else {
      again := None;
    }
  }
}
