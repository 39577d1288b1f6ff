/**
 * The messages of `messages/messages.asn1` and their generated codec (`messages/messages.c`).
 * First what the encoding rules say about a message as a value, then the code over C structures.
 */
module Messages {
  import opened Bits
  import opened Bytes
  import opened BitStreams
  import opened Per
  import opened Integers

  datatype Input = Input(invokeid: sint64, command: seq<byte>)

  datatype Output = Output(invokeid: sint64, command: seq<byte>, result: seq<byte>)

  /** The constraint `OCTET STRING (SIZE(1..256))`. */
  predicate SizeValid(n: int) {
    1 <= n <= 256
  }

  predicate InputValid(m: Input) {
    SizeValid(|m.command|)
  }

  predicate OutputValid(m: Output) {
    SizeValid(|m.command|) && SizeValid(|m.result|)
  }

  // ---------------------------------------------------------------- the encoding as bit strings

  function OctetBits(o: seq<byte>): (s: seq<bool>)
    requires SizeValid(|o|)
    ensures |s| == 8 + 8 * |o|
  {
    FromNat(|o| - 1, 8) + Unpack(o)
  }

  function InputBits(m: Input): (s: seq<bool>)
    requires InputValid(m)
    ensures |s| == 16 + 8 * SignedOctets(m.invokeid) + 8 * |m.command|
  {
    UnconstrainedBits(m.invokeid) + OctetBits(m.command)
  }

  function OutputBits(m: Output): (s: seq<bool>)
    requires OutputValid(m)
    ensures |s| == 24 + 8 * SignedOctets(m.invokeid) + 8 * |m.command| + 8 * |m.result|
  {
    UnconstrainedBits(m.invokeid) + OctetBits(m.command) + OctetBits(m.result)
  }

  /** The octet string at the front of `r` and the number of bits it takes. */
  function OctetsAt(r: seq<bool>): (o: Option<(seq<byte>, nat)>)
    ensures o.Some? ==> SizeValid(|o.value.0|) && o.value.1 == 8 + 8 * |o.value.0| <= |r|
  {
    if |r| < 8 then None
    else
      var n := ToNat(r[..8]) + 1;
      OctetCount(r[..8]);
      if |r| < 8 + 8 * n then None else Some((Pack(r[8..8 + 8 * n]), 8 + 8 * n))
  }

  lemma OctetCount(h: seq<bool>)
    requires |h| == 8
    ensures ToNat(h) < 256
  {
    Pow2Values();
    ToNatBound(h);
  }

  function InputAt(r: seq<bool>): (o: Option<(Input, nat)>)
    ensures o.Some? ==> InputValid(o.value.0) && o.value.1 <= |r|
  {
    match UnconstrainedAt(r)
    case None => None
    case Some((id, n)) =>
      match OctetsAt(r[n..])
      case None => None
      case Some((command, k)) => Some((Input(id, command), n + k))
  }

  function OutputAt(r: seq<bool>): (o: Option<(Output, nat)>)
    ensures o.Some? ==> OutputValid(o.value.0) && o.value.1 <= |r|
  {
    match InputAt(r)
    case None => None
    case Some((Input(id, command), n)) =>
      match OctetsAt(r[n..])
      case None => None
      case Some((result, k)) => Some((Output(id, command, result), n + k))
  }

  lemma OctetsRoundTrip(o: seq<byte>, rest: seq<bool>)
    requires SizeValid(|o|)
    ensures OctetsAt(OctetBits(o) + rest) == Some((o, 8 + 8 * |o|))
  {
    hide ToNat, FromNat, Pack, Unpack;
    Pow2Values();
    var h, u := FromNat(|o| - 1, 8), Unpack(o);
    var r := h + u + rest;
    ToNatFromNat(|o| - 1, 8);
    PackUnpack(o);
    assert r[..8] == h;
    assert r[8..8 + 8 * |o|] == u;
  }

  /** Every valid request is restored, whatever follows it, and takes 4 to 266 octets. */
  lemma InputRoundTrip(m: Input, rest: seq<bool>)
    requires InputValid(m)
    ensures InputAt(InputBits(m) + rest) == Some((m, |InputBits(m)|))
    ensures |InputBits(m)| % 8 == 0 && 8 * 4 <= |InputBits(m)| <= 8 * 266
  {
    hide UnconstrainedBits, UnconstrainedAt, OctetBits, OctetsAt, SignedOctets;
    var a, b := UnconstrainedBits(m.invokeid), OctetBits(m.command);
    UnconstrainedRoundTrip(m.invokeid, b + rest);
    OctetsRoundTrip(m.command, rest);
    Regroup(a, b, rest);
  }

  lemma Regroup(a: seq<bool>, b: seq<bool>, c: seq<bool>)
    ensures a + b + c == a + (b + c)
    ensures (a + (b + c))[|a|..] == b + c
  {
  }

  /** Every valid reply is restored, whatever follows it, and takes 6 to 523 octets. */
  lemma OutputRoundTrip(m: Output, rest: seq<bool>)
    requires OutputValid(m)
    ensures OutputAt(OutputBits(m) + rest) == Some((m, |OutputBits(m)|))
    ensures |OutputBits(m)| % 8 == 0 && 8 * 6 <= |OutputBits(m)| <= 8 * 523
  {
    hide InputBits, InputAt, OctetBits, OctetsAt, SignedOctets;
    var i := Input(m.invokeid, m.command);
    var a, b := InputBits(i), OctetBits(m.result);
    OutputIsInputAndResult(m);
    InputRoundTrip(i, b + rest);
    OctetsRoundTrip(m.result, rest);
    Regroup(a, b, rest);
    InputRoundTrip(i, []);
  }

  lemma OutputIsInputAndResult(m: Output)
    requires OutputValid(m)
    ensures OutputBits(m) == InputBits(Input(m.invokeid, m.command)) + OctetBits(m.result)
  {
  }

  /** Any 513 octets hold a request: garbage decodes to some valid message. */
  lemma InputAlwaysDecodes(r: seq<bool>)
    requires |r| >= 8 * 513
    ensures InputAt(r).Some? && InputAt(r).value.1 <= 8 * 513
  {
    hide ToNat, TwosValue, Pack;
    OctetCount(r[..8]);
    var n := UnconstrainedAt(r).value.1;
    OctetCount(r[n..][..8]);
  }

  /** Any 770 octets hold a reply. */
  lemma OutputAlwaysDecodes(r: seq<bool>)
    requires |r| >= 8 * 770
    ensures OutputAt(r).Some? && OutputAt(r).value.1 <= 8 * 770
  {
    hide ToNat, InputAt, Pack;
    InputAlwaysDecodes(r);
    var n := InputAt(r).value.1;
    OctetCount(r[n..][..8]);
  }

  // ---------------------------------------------------------------- the generated code

  const ERR_INSUFFICIENT_DATA: int := 101
  const ERR_OUTPUT_RESULT: int := 1001
  const ERR_OUTPUT_COMMAND: int := 1002
  const ERR_INPUT_COMMAND: int := 1003

  /** `InputType_command`, `OutputType_command` and `OutputType_result`. */
  class OctetString {
    var nCount: int
    const arr: array<byte>

    constructor ()
      ensures nCount == 0 && fresh(arr) && arr.Length == 256
    {
      nCount := 0;
      arr := new byte[256];
    }

    ghost predicate Valid()
      reads this
    {
      arr.Length == 256 && SizeValid(nCount)
    }

    ghost function Value(): (o: seq<byte>)
      reads this, arr
      requires Valid()
    {
      arr[..nCount]
    }

    /** `errSize` is the error code that the generated code reserves for this component. */
    method IsConstraintValid(errSize: int) returns (ret: bool, err: int)
      ensures ret == SizeValid(nCount) && err == if ret then 0 else errSize
    {
      ret := 1 <= nCount && nCount <= 256;
      err := if ret then 0 else errSize;
    }

    /** With `check` off the caller vouches for the constraint and `err` is left alone. */
    method Encode(s: BitStream, check: bool, err0: int, errSize: int) returns (ret: bool, err: int)
      requires arr.Length == 256 && arr != s.buf && (check || Valid())
      requires s.Writable() && (Valid() ==> s.Room(|OctetBits(Value())|))
      modifies s, s.buf
      ensures ret == Valid() && err == if !check then err0 else if ret then 0 else errSize
      ensures s.Writable() && s.Written() == old(s.Written()) + if Valid() then OctetBits(Value()) else []
    {
      ret, err := true, err0;
      if check {
        ret, err := IsConstraintValid(errSize);
      }
      if ret {
        EncodeValid(s);
      }
    }

    method EncodeValid(s: BitStream)
      requires Valid() && arr != s.buf
      requires s.Writable() && s.Room(|OctetBits(Value())|)
      modifies s, s.buf
      ensures s.Writable() && s.Written() == old(s.Written()) + OctetBits(Value())
    {
      hide Unpack, ByteBits, FromNat, NumBits, ConstrainedBits;
      ghost var w0, o := s.Written(), Value();
      OctetHeader(nCount);
      EncodeConstraintWholeNumber(s, nCount, 1, 256);
      EncodeOctets(s);
      AppendTwo(w0, FromNat(nCount - 1, 8), Unpack(o));
    }

    /** The loop over the octets. */
    method EncodeOctets(s: BitStream)
      requires Valid() && arr != s.buf
      requires s.Writable() && s.Room(8 * nCount)
      modifies s, s.buf
      ensures s.Writable() && s.Written() == old(s.Written()) + Unpack(Value())
    {
      hide Unpack, ByteBits;
      ghost var w0, o := s.Written(), Value();
      var i1 := 0;
      NoOctets(o);
      while i1 < nCount
        invariant 0 <= i1 <= nCount
        invariant s.Writable() && s.Room(8 * (nCount - i1))
        invariant s.Written() == w0 + Unpack(o[..i1])
      {
        OneMoreOctet(o, i1, w0);
        s.AppendByte0(arr[i1]);
        i1 := i1 + 1;
      }
      assert o[..nCount] == o;
    }

    method Decode(s: BitStream) returns (ret: bool, err: int)
      requires arr.Length == 256 && arr != s.buf
      requires s.Valid() && s.Room(0) && (OctetsAt(s.Rest()).Some? || s.count < s.buf.Length)
      modifies this, arr, s
      ensures s.Valid() && ret == OctetsAt(old(s.Rest())).Some? && err == if ret then 0 else ERR_INSUFFICIENT_DATA
      ensures ret ==> Valid() && ghost var (o, n) := OctetsAt(old(s.Rest())).value;
                      Value() == o && s.Pos() == old(s.Pos()) + n && s.Rest() == old(s.Rest())[n..]
    {
      hide Unpack, ByteBits, ToNat, Pack, OctetsAt;
      ghost var r := s.Rest();
      OctetsParts(r);
      var count;
      ret, count := DecodeSize(s);
      err := if ret then 0 else ERR_INSUFFICIENT_DATA;
      nCount := count;
      if ret {
        ret := DecodeOctets(s);
        err := if ret then 0 else ERR_INSUFFICIENT_DATA;
        if ret {
          Collected(r, nCount, arr[..nCount]);
        }
      }
    }

    /** The constrained number 1..256 in front of the octets. */
    method DecodeSize(s: BitStream) returns (ret: bool, count: int)
      requires s.Valid() && Safe(s, 8 <= |s.Rest()|)
      modifies s
      ensures s.Valid() && ret == (8 <= old(|s.Rest()|))
      ensures ret ==> count == ToNat(old(s.Rest())[..8]) + 1 && SizeValid(count)
      ensures ret ==> s.Room(0) && s.Pos() == old(s.Pos()) + 8 && s.Rest() == old(s.Rest())[8..]
    {
      hide Unpack, ToNat, NumBits, Wrap64;
      ghost var r := s.Rest();
      OctetHeader(1);
      ret, count := DecodeConstraintWholeNumber(s, 1, 256);
      if ret {
        OctetCount(r[..8]);
        WrapFits(ToNat(r[..8]) + 1);
      }
    }

    /** The loop over the octets. */
    method DecodeOctets(s: BitStream) returns (ret: bool)
      requires Valid() && arr != s.buf
      requires s.Valid() && s.Room(0) && (8 * nCount <= |s.Rest()| || s.count < s.buf.Length)
      modifies arr, s
      ensures s.Valid() && ret == (8 * nCount <= old(|s.Rest()|))
      ensures ret ==> Unpack(arr[..nCount]) == old(s.Rest())[..8 * nCount]
      ensures ret ==> s.Pos() == old(s.Pos()) + 8 * nCount && s.Rest() == old(s.Rest())[8 * nCount..]
    {
      hide Unpack, ByteBits;
      ghost var c := s.Rest();
      var i1 := 0;
      ret := true;
      NoOctets(arr[..]);
      assert c[..0] == [];
      while i1 < nCount && ret
        invariant 0 <= i1 <= nCount && s.Valid()
        invariant ret ==> s.Room(0) && 8 * i1 <= |c|
        invariant ret ==> s.Pos() == old(s.Pos()) + 8 * i1 && s.Rest() == c[8 * i1..]
        invariant ret ==> Unpack(arr[..i1]) == c[..8 * i1]
        invariant !ret ==> |c| < 8 * nCount
        decreases nCount - i1, ret
      {
        var b;
        ret, b := s.ReadByte();
        arr[i1] := b;
        if ret {
          OneMoreRead(arr[..], i1, c);
        }
        i1 := i1 + 1;
      }
    }
  }

  class InputType {
    var invokeid: sint64
    const command: OctetString

    constructor ()
      ensures fresh(command) && fresh(command.arr) && command.arr.Length == 256
      ensures invokeid == 0 && command.nCount == 0
    {
      invokeid := 0;
      command := new OctetString();
    }

    ghost predicate Valid()
      reads this, command
    {
      command.Valid()
    }

    ghost function Value(): (m: Input)
      reads this, command, command.arr
      requires Valid()
      ensures InputValid(m)
    {
      Input(invokeid, command.Value())
    }

    method IsConstraintValid() returns (ret: bool, err: int)
      ensures ret == SizeValid(command.nCount) && err == if ret then 0 else ERR_INPUT_COMMAND
    {
      ret, err := command.IsConstraintValid(ERR_INPUT_COMMAND);
    }

    /** With `check` off the caller vouches for the constraints and `err` is left alone. */
    method Encode(s: BitStream, check: bool, err0: int) returns (ret: bool, err: int)
      requires command.arr.Length == 256 && command.arr != s.buf
      requires check || Valid()
      requires s.Writable() && (Valid() ==> s.Room(|InputBits(Value())|))
      modifies s, s.buf
      ensures ret == Valid() && err == if !check then err0 else if ret then 0 else ERR_INPUT_COMMAND
      ensures s.Writable()
      ensures s.Written() == old(s.Written()) + if Valid() then InputBits(Value()) else []
    {
      hide UnconstrainedBits, OctetBits, SignedOctets, Unpack;
      ret, err := true, err0;
      if check {
        ret, err := IsConstraintValid();
      }
      if ret {
        ghost var w0, m := s.Written(), Value();
        EncodeUnConstraintWholeNumber(s, invokeid);
        ret, err := command.Encode(s, false, err, ERR_INPUT_COMMAND);
        AppendTwo(w0, UnconstrainedBits(m.invokeid), OctetBits(m.command));
      }
    }

    method Decode(s: BitStream) returns (ret: bool, err: int)
      requires command.arr.Length == 256 && command.arr != s.buf
      requires s.Valid() && Safe(s, InputAt(s.Rest()).Some?)
      modifies this, command, command.arr, s
      ensures s.Valid() && ret == InputAt(old(s.Rest())).Some? && err == if ret then 0 else ERR_INSUFFICIENT_DATA
      ensures ret ==> Valid() && ghost var (m, n) := InputAt(old(s.Rest())).value;
                      Value() == m && s.Pos() == old(s.Pos()) + n && s.Rest() == old(s.Rest())[n..]
    {
      hide UnconstrainedAt, OctetsAt, Unpack, InputAt;
      ghost var r := s.Rest();
      InputPieces(r);
      var id;
      ret, id := DecodeUnConstraintWholeNumber(s);
      invokeid := id;
      err := if ret then 0 else ERR_INSUFFICIENT_DATA;
      if ret {
        ret, err := command.Decode(s);
      }
    }
  }

  lemma InputPieces(r: seq<bool>)
    ensures UnconstrainedAt(r) == None ==> InputAt(r) == None
    ensures UnconstrainedAt(r).Some? ==>
              var (id, n) := UnconstrainedAt(r).value;
              n <= |r|
              && (OctetsAt(r[n..]) == None ==> InputAt(r) == None)
              && (OctetsAt(r[n..]).Some? ==> var (o, k) := OctetsAt(r[n..]).value;
                                             InputAt(r) == Some((Input(id, o), n + k)) && r[n..][k..] == r[n + k..])
  {
    hide OctetsAt;
  }

  class OutputType {
    var invokeid: sint64
    const command: OctetString
    const result: OctetString

    constructor ()
      ensures fresh(command) && fresh(command.arr) && command.arr.Length == 256
      ensures fresh(result) && fresh(result.arr) && result.arr.Length == 256
      ensures Separate()
    {
      invokeid := 0;
      command := new OctetString();
      result := new OctetString();
    }

    /** The two octet strings are embedded in the structure, so they never share memory. */
    ghost predicate Separate() {
      command != result && command.arr != result.arr && command.arr.Length == result.arr.Length == 256
    }

    ghost predicate Valid()
      reads this, command, result
    {
      Separate() && command.Valid() && result.Valid()
    }

    ghost function Value(): (m: Output)
      reads this, command, command.arr, result, result.arr
      requires Valid()
      ensures OutputValid(m)
    {
      Output(invokeid, command.Value(), result.Value())
    }

    method IsConstraintValid() returns (ret: bool, err: int)
      ensures ret == (SizeValid(command.nCount) && SizeValid(result.nCount))
      ensures err == if ret then 0 else if SizeValid(command.nCount) then ERR_OUTPUT_RESULT else ERR_OUTPUT_COMMAND
    {
      ret, err := command.IsConstraintValid(ERR_OUTPUT_COMMAND);
      if ret {
        ret, err := result.IsConstraintValid(ERR_OUTPUT_RESULT);
      }
    }

    method Encode(s: BitStream, check: bool, err0: int) returns (ret: bool, err: int)
      requires Separate() && command.arr != s.buf && result.arr != s.buf
      requires check || Valid()
      requires s.Writable() && (Valid() ==> s.Room(|OutputBits(Value())|))
      modifies s, s.buf
      ensures ret == Valid()
      ensures err == if !check then err0 else if ret then 0
                     else if SizeValid(command.nCount) then ERR_OUTPUT_RESULT else ERR_OUTPUT_COMMAND
      ensures s.Writable()
      ensures s.Written() == old(s.Written()) + if Valid() then OutputBits(Value()) else []
    {
      hide UnconstrainedBits, OctetBits, SignedOctets, Unpack;
      ret, err := true, err0;
      if check {
        ret, err := IsConstraintValid();
      }
      if ret {
        ghost var w0, m := s.Written(), Value();
        EncodeUnConstraintWholeNumber(s, invokeid);
        ret, err := command.Encode(s, false, err, ERR_OUTPUT_COMMAND);
        if ret {
          ret, err := result.Encode(s, false, err, ERR_OUTPUT_RESULT);
        }
        AppendThree(w0, UnconstrainedBits(m.invokeid), OctetBits(m.command), OctetBits(m.result));
        Regroup(UnconstrainedBits(m.invokeid), OctetBits(m.command), OctetBits(m.result));
      }
    }

    method Decode(s: BitStream) returns (ret: bool, err: int)
      requires Separate() && command.arr != s.buf && result.arr != s.buf
      requires s.Valid() && Safe(s, OutputAt(s.Rest()).Some?)
      modifies this, command, command.arr, result, result.arr, s
      ensures s.Valid() && ret == OutputAt(old(s.Rest())).Some? && err == if ret then 0 else ERR_INSUFFICIENT_DATA
      ensures ret ==> Valid() && ghost var (m, n) := OutputAt(old(s.Rest())).value;
                      Value() == m && s.Pos() == old(s.Pos()) + n && s.Rest() == old(s.Rest())[n..]
    {
      hide UnconstrainedAt, OctetsAt, Unpack, InputAt, OutputAt;
      ghost var r := s.Rest();
      OutputPieces(r);
      ret, err := DecodeFirst(s);
      if ret {
        ret, err := result.Decode(s);
      }
    }

    /** The components that come first are those of a request. */
    method DecodeFirst(s: BitStream) returns (ret: bool, err: int)
      requires Separate() && command.arr != s.buf
      requires s.Valid() && Safe(s, InputAt(s.Rest()).Some?)
      modifies this, command, command.arr, s
      ensures s.Valid() && ret == InputAt(old(s.Rest())).Some? && err == if ret then 0 else ERR_INSUFFICIENT_DATA
      ensures ret ==> command.Valid() && ghost var (m, n) := InputAt(old(s.Rest())).value;
                      Input(invokeid, command.Value()) == m && s.Pos() == old(s.Pos()) + n
                        && s.Rest() == old(s.Rest())[n..]
    {
      hide UnconstrainedAt, OctetsAt, Unpack, InputAt;
      ghost var r := s.Rest();
      InputPieces(r);
      var id;
      ret, id := DecodeUnConstraintWholeNumber(s);
      invokeid := id;
      err := if ret then 0 else ERR_INSUFFICIENT_DATA;
      if ret {
        ret, err := command.Decode(s);
      }
    }
  }

  lemma OutputPieces(r: seq<bool>)
    ensures InputAt(r) == None ==> OutputAt(r) == None
    ensures InputAt(r).Some? ==>
              var (m, n) := InputAt(r).value;
              n <= |r|
              && (OctetsAt(r[n..]) == None ==> OutputAt(r) == None)
              && (OctetsAt(r[n..]).Some? ==> var (o, k) := OctetsAt(r[n..]).value;
                                             OutputAt(r) == Some((Output(m.invokeid, m.command, o), n + k))
                                               && r[n..][k..] == r[n + k..])
  {
  }

  lemma OctetHeader(n: int)
    requires SizeValid(n)
    ensures NumBits(255) == 8 && ConstrainedBits(n, 1, 256) == FromNat(n - 1, 8)
  {
    Range255();
  }

  lemma NoOctets(o: seq<byte>)
    ensures Unpack(o[..0]) == []
  {
  }

  lemma OneMoreOctet(o: seq<byte>, i: nat, w: seq<bool>)
    requires i < |o|
    ensures w + Unpack(o[..i]) + ByteBits(o[i]) == w + Unpack(o[..i + 1])
  {
    assert o[..i + 1][..i] == o[..i];
    AppendTwo(w, Unpack(o[..i]), ByteBits(o[i]));
  }

  lemma OneMoreRead(a: seq<byte>, i: nat, c: seq<bool>)
    requires i < |a| && 8 * i + 8 <= |c|
    requires Unpack(a[..i]) == c[..8 * i] && ByteBits(a[i]) == c[8 * i..][..8]
    ensures Unpack(a[..i + 1]) == c[..8 * (i + 1)]
    ensures c[8 * i..][8..] == c[8 * (i + 1)..]
  {
    hide ByteBits;
    assert a[..i + 1][..i] == a[..i];
    assert c[..8 * (i + 1)] == c[..8 * i] + c[8 * i..][..8];
  }

  lemma OctetsParts(r: seq<bool>)
    ensures |r| < 8 ==> OctetsAt(r) == None
    ensures |r| >= 8 ==> var n := 8 + 8 * (ToNat(r[..8]) + 1);
                         OctetsAt(r) == if |r| < n then None else Some((Pack(r[8..n]), n))
  {
    hide ToNat, Pack;
  }

  lemma Collected(r: seq<bool>, n: nat, a: seq<byte>)
    requires 8 + 8 * n <= |r| && Unpack(a) == r[8..][..8 * n]
    ensures var k := 8 + 8 * n;
            a == Pack(r[8..k]) && r[8..][8 * n..] == r[k..]
  {
    hide Unpack, Pack;
    assert r[8..][..8 * n] == r[8..8 + 8 * n];
    PackUnpack(a);
  }
}
