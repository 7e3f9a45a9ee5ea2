/** `opcodes_encoder.rs`: lists of calls packed into bytes for the multicaller contract. */
module OpcodesEncoder {
  import opened Arithmetic
  import opened Words
  import opened BitMath
  import opened Options

  type Byte = x: int | 0 <= x < 256

  datatype CallType = Unknown | Call | DelegateCall | StaticCall | InternalCall | CalculationCall | CustomCall

  /** Where call data is patched from, or a return value stored to, on the multicaller's stack. */
  datatype CallStack = CallStack(isRelative: bool, stackOffset: nat, dataOffset: nat, dataLen: nat)

  datatype MulticallerCall = MulticallerCall(callType: CallType, data: seq<Byte>, to: seq<Byte>, value: Option<u256>,
                                             callStack: Option<CallStack>, returnStack: Option<CallStack>)

  // ------------------------------------------------------------------ bit fields

  const TWO12: int := 0x1000
  const TWO16: int := 0x1_0000
  const TWO20: int := 0x10_0000
  const TWO24: int := 0x100_0000
  const TWO40: int := 0x100_0000_0000
  const TWO64: int := 0x1_0000_0000_0000_0000
  const TWO79: int := 0x8000_0000_0000_0000_0000
  const TWO80: int := 0x1_0000_0000_0000_0000_0000
  const TWO95: int := 0x8000_0000_0000_0000_0000_0000

  lemma FieldPowers()
    ensures Pow2(12) == TWO12 && Pow2(16) == TWO16 && Pow2(20) == TWO20 && Pow2(23) == 0x80_0000
    ensures Pow2(40) == TWO40 && Pow2(80) == TWO80 && Pow2(95) == TWO95
  {
    assert Pow2(4) == 16;
    Pow2Product(4, 4, 16, 16);
    Pow2Product(8, 4, 256, 16);
    Pow2Product(8, 8, 256, 256);
    Pow2Product(16, 4, TWO16, 16);
    Pow2Product(20, 3, TWO20, 8);
    Pow2Product(20, 20, TWO20, TWO20);
    Pow2Product(40, 40, TWO40, TWO40);
    Pow2Product(80, 12, TWO80, TWO12);
    Pow2Product(92, 3, TWO80 * TWO12, 8);
  }

  /** Or-ing into the low part of a word leaves the high part alone. */
  lemma {:induction false} OrLow(k: nat, hi: nat, lo: nat, y: nat)
    requires lo < Pow2(k) && y < Pow2(k)
    ensures BitOr(hi * Pow2(k) + lo, y) == hi * Pow2(k) + BitOr(lo, y)
  {
    if k == 0 {
      OrZero(hi);
    } else {
      OrLow(k - 1, hi, lo / 2, y / 2);
      Double(hi, Pow2(k - 1));
    }
  }

  /** Or-ing a field into its gap in a word adds it. */
  lemma OrField(hi: nat, k: nat, lo: nat, j: nat, z: nat)
    requires lo < Pow2(j) && z * Pow2(j) < Pow2(k) && lo < Pow2(k)
    ensures z * Pow2(j) >= 0
    ensures BitOr(hi * Pow2(k) + lo, z * Pow2(j)) == hi * Pow2(k) + lo + z * Pow2(j)
  {
    MulLe(0, z, Pow2(j));
    OrLow(k, hi, lo, z * Pow2(j));
    OrDisjoint(j, lo, z);
  }

  /** Masking the low bits is the remainder. */
  lemma {:induction false} AndLow(x: nat, k: nat)
    ensures BitAnd(x, Pow2(k) - 1) == x % Pow2(k)
  {
    hide BitAnd;
    if k == 0 {
      AndZero(x);
      DivBounds(x, 1);
    } else {
      AndLow(x / 2, k - 1);
      AndHalves(x, Pow2(k) - 1);
      assert (Pow2(k) - 1) / 2 == Pow2(k - 1) - 1;
      HalfRemainder(x, Pow2(k - 1));
    }
  }

  lemma HalfRemainder(x: nat, p: nat)
    requires p > 0
    ensures x % (2 * p) == 2 * ((x / 2) % p) + x % 2
  {
    var h := x / 2;
    DivBounds(h, p);
    var q := h / p;
    assert x == 2 * (h % p) + x % 2 + q * (2 * p);
    ModIs(x, 2 * p, 2 * (h % p) + x % 2, q);
  }

  // ------------------------------------------------------------- stack references

  /** 24 bits: the relative flag, 3 bits of stack offset, 8 of length, 12 of data offset. */
  function DataOffset(isRelative: bool, stackOffset: nat, dataOffset: nat, dataLen: nat): (r: nat)
    ensures r < TWO24
  {
    (if isRelative then 0x80_0000 else 0) + stackOffset % 8 * TWO20 + dataLen % 256 * TWO12 + dataOffset % TWO12
  }

  lemma Masks(x: nat)
    ensures BitAnd(x, 0x7) == x % 8 && BitAnd(x, 0xFF) == x % 256 && BitAnd(x, 0xFFF) == x % TWO12
  {
    FieldPowers();
    AndLow(x, 3);
    AndLow(x, 8);
    AndLow(x, 12);
  }

  lemma OrTop(top: nat, s: nat)
    requires top <= 1 && s < 8
    ensures BitOr(top * 0x80_0000, s * TWO20) == (top * 8 + s) * TWO20
  {
    hide BitOr, Pow2;
    FieldPowers();
    OrField(top, 23, 0, 20, s);
  }

  lemma OrMiddle(high: nat, l: nat)
    requires l < 256
    ensures BitOr(high * TWO20, l * TWO12) == (high * 256 + l) * TWO12
  {
    FieldPowers();
    OrField(high, 20, 0, 12, l);
  }

  lemma OrBottom(high: nat, d: nat)
    requires d < TWO12
    ensures BitOr(high * TWO12, d) == high * TWO12 + d
  {
    FieldPowers();
    OrLow(12, high, 0, d);
    OrZero(d);
  }

  /** `encode_data_offset` */
  method EncodeDataOffset(isRelative: bool, stackOffset: nat, dataOffset: nat, dataLen: nat) returns (ret: nat)
    ensures ret == DataOffset(isRelative, stackOffset, dataOffset, dataLen)
  {
    ghost var top, s, l := if isRelative then 1 else 0, stackOffset % 8, dataLen % 256;
    ret := if isRelative then 0x80_0000 else 0;
    Masks(stackOffset);
    OrTop(top, s);
    ret := BitOr(ret, BitAnd(stackOffset, 0x7) * TWO20);
    Masks(dataLen);
    OrMiddle(top * 8 + s, l);
    ret := BitOr(ret, BitAnd(dataLen, 0xFF) * TWO12);
    Masks(dataOffset);
    OrBottom((top * 8 + s) * 256 + l, dataOffset % TWO12);
    ret := BitOr(ret, BitAnd(dataOffset, 0xFFF));
  }

  /** The call data follows a header of 12 bytes, and an address of 20 unless the call is internal. */
  function Headroom(callType: CallType): nat
  {
    if callType.InternalCall? || callType.CalculationCall? then 0xC else 0x20
  }

  /** `encode_call_stack` and `encode_return_stack` */
  function StackWord(stack: Option<CallStack>, headroom: nat): (r: nat)
    ensures r < TWO24
  {
    match stack
    case Some(s) => DataOffset(s.isRelative, s.stackOffset, s.dataOffset + headroom, s.dataLen)
    case None => 0xFF_FFFF
  }

  // --------------------------------------------------------------------- packing

  datatype Packed = Packed(bytes: seq<Byte>) | WrongOpcode

  const VALUE_CALL: int := 0x7FFA
  const CALCULATION_CALL: int := 0x7FFB
  const ZERO_VALUE_CALL: int := 0x7FFC
  const INTERNAL_CALL: int := 0x7FFD
  const STATIC_CALL: int := 0x7FFE
  const DELEGATE_CALL: int := 0x7FFF

  function Selector(call: MulticallerCall): Option<nat>
  {
    match call.callType
    case Call => if call.value.None? then Some(ZERO_VALUE_CALL) else Some(VALUE_CALL)
    case DelegateCall => Some(DELEGATE_CALL)
    case InternalCall => Some(INTERNAL_CALL)
    case StaticCall => Some(STATIC_CALL)
    case CalculationCall => Some(CALCULATION_CALL)
    case _ => None
  }

  predicate SendsValue(call: MulticallerCall)
  {
    call.callType.Call? && call.value.Some? && call.value.value != 0
  }

  /** The fields of the header, or-ed together. */
  function Header(call: MulticallerCall, selector: nat): nat
  {
    if SendsValue(call) then
      BitOr(BitOr(Wrap(call.value.value * TWO16), TWO95), |call.data|)
    else
      BitOr(BitOr(BitOr(selector * TWO80, |call.data|), StackWord(call.callStack, Headroom(call.callType)) * TWO16),
            StackWord(call.returnStack, 0) * TWO40)
  }

  /** `to_be_bytes` */
  function BigEndian(x: nat, n: nat): (r: seq<Byte>)
    ensures |r| == n
  {
    if n == 0 then [] else BigEndian(x / 256, n - 1) + [x % 256]
  }

  predicate Addressed(callType: CallType) { !callType.InternalCall? && !callType.CalculationCall? }

  /** `pack_opcode`: the low twelve bytes of the header, the address, the data. */
  function PackOne(call: MulticallerCall): Packed
  {
    match Selector(call)
    case None => WrongOpcode
    case Some(selector) =>
      Packed(BigEndian(Header(call, selector), 32)[20..32] + (if Addressed(call.callType) then call.to else []) + call.data)
  }

  function PackAll(calls: seq<MulticallerCall>): Packed
  {
    if calls == [] then Packed([])
    else
      match PackOne(calls[0])
      case WrongOpcode => WrongOpcode
      case Packed(first) =>
        match PackAll(calls[1..])
        case WrongOpcode => WrongOpcode
        case Packed(rest) => Packed(first + rest)
  }

  /** `pack_opcode` */
  method PackOpcode(call: MulticallerCall) returns (r: Packed)
    ensures r == PackOne(call)
  {
    var ret: seq<Byte> := [];
    var selector: nat := 0;
    var selectorCall: nat;
    match call.callType {
      case Call => selectorCall := if call.value.None? then ZERO_VALUE_CALL else VALUE_CALL;
      case DelegateCall => selectorCall := DELEGATE_CALL;
      case InternalCall => selectorCall := INTERNAL_CALL;
      case StaticCall => selectorCall := STATIC_CALL;
      case CalculationCall => selectorCall := CALCULATION_CALL;
      case _ => return WrongOpcode;
    }

    var value := if call.value.Some? then call.value.value else 0;
    if selectorCall == VALUE_CALL && value != 0 {
      selector := Wrap(value * TWO16);
      selector := BitOr(selector, TWO95);
      selector := BitOr(selector, |call.data|);
    } else {
      OrZero(selectorCall * TWO80);
      selector := BitOr(selector, selectorCall * TWO80);
      selector := BitOr(selector, |call.data|);
      selector := BitOr(selector, StackWord(call.callStack, Headroom(call.callType)) * TWO16);
      selector := BitOr(selector, StackWord(call.returnStack, 0) * TWO40);
    }
    ret := ret + BigEndian(selector, 32)[20..32];
    if !call.callType.CalculationCall? && !call.callType.InternalCall? {
      ret := ret + call.to;
    }
    ret := ret + call.data;
    return Packed(ret);
  }

  /** `pack_do_calls_data` */
  method PackDoCallsData(calls: seq<MulticallerCall>) returns (r: Packed)
    ensures r == PackAll(calls)
  {
    var data: seq<Byte> := [];
    var i := 0;
    while i < |calls|
      invariant 0 <= i <= |calls|
      invariant PackAll(calls) == match PackAll(calls[i..])
                                  case WrongOpcode => WrongOpcode
                                  case Packed(rest) => Packed(data + rest)
    {
      var one := PackOpcode(calls[i]);
      assert calls[i..][1..] == calls[i + 1..];
      if one.WrongOpcode? {
        return WrongOpcode;
      }
      ghost var before := data;
      data := data + one.bytes;
      assert forall rest: seq<Byte> :: before + (one.bytes + rest) == data + rest;
      i := i + 1;
    }
    return Packed(data);
  }

  // -------------------------------------------------------------------- decoding

  function FromBytes(b: seq<Byte>): nat
  {
    if b == [] then 0 else FromBytes(b[..|b| - 1]) * 256 + b[|b| - 1]
  }

  const ZERO_ADDRESS: seq<Byte> := [0, 0, 0, 0, 0, 0, 0, 0, 0, 0, 0, 0, 0, 0, 0, 0, 0, 0, 0, 0]

  function DecodeStack(x: nat, headroom: nat): Option<CallStack>
  {
    if x == 0xFF_FFFF then None
    else
      var offset := x % TWO12;
      Some(CallStack(x >= 0x80_0000, x / TWO20 % 8, if offset < headroom then 0 else offset - headroom, x / TWO12 % 256))
  }

  function TypeOf(selector: nat): Option<CallType>
  {
    if selector == VALUE_CALL || selector == ZERO_VALUE_CALL then Some(Call)
    else if selector == CALCULATION_CALL then Some(CalculationCall)
    else if selector == INTERNAL_CALL then Some(InternalCall)
    else if selector == STATIC_CALL then Some(StaticCall)
    else if selector == DELEGATE_CALL then Some(DelegateCall)
    else None
  }

  /** A header read back, with no address and no data yet. */
  function DecodeHeader(w: nat): Option<MulticallerCall>
  {
    if w >= TWO95 then
      var value := (w - TWO95) / TWO16;
      if value >= TWO256 then None else Some(MulticallerCall(Call, [], [], Some(value), None, None))
    else
      match TypeOf(w / TWO80)
      case None => None
      case Some(callType) =>
        SmallWords();
        Some(MulticallerCall(callType, [], [], if w / TWO80 == VALUE_CALL then Some(0) else None,
                             DecodeStack(w / TWO16 % TWO24, Headroom(callType)), DecodeStack(w / TWO40 % TWO24, 0)))
  }

  lemma SmallWords()
    ensures TWO95 < TWO256
  {
    FieldPowers();
    Pow2Strict(95, 256);
  }

  function Filled(call: MulticallerCall, to: seq<Byte>, data: seq<Byte>): MulticallerCall
  {
    call.(to := to, data := data)
  }

  /** The first call of a packed list, and the bytes after it. */
  function DecodeOne(bytes: seq<Byte>): Option<(MulticallerCall, seq<Byte>)>
  {
    if |bytes| < 12 then None
    else
      var w := FromBytes(bytes[..12]);
      match DecodeHeader(w)
      case None => None
      case Some(call) =>
        var start := if Addressed(call.callType) then 32 else 12;
        var end := start + w % TWO16;
        if |bytes| < end then None
        else
          Some((Filled(call, if Addressed(call.callType) then bytes[12..32] else ZERO_ADDRESS, bytes[start..end]),
                bytes[end..]))
  }

  function DecodeAll(bytes: seq<Byte>): Option<seq<MulticallerCall>>
    decreases |bytes|
  {
    if bytes == [] then Some([])
    else
      match DecodeOne(bytes)
      case None => None
      case Some((call, rest)) =>
        match DecodeAll(rest)
        case None => None
        case Some(calls) => Some([call] + calls)
  }

  // ------------------------------------------------------------------ round trips

  predicate StackFits(stack: Option<CallStack>, headroom: nat)
  {
    stack.Some? ==>
      var s := stack.value;
      s.stackOffset < 8 && s.dataLen < 256 && s.dataOffset + headroom < TWO12 && StackWord(stack, headroom) != 0xFF_FFFF
  }

  /** Calls whose fields fit the header. */
  predicate Encodable(call: MulticallerCall)
  {
    && Selector(call).Some? && |call.data| < TWO16 && |call.to| == 20
    && StackFits(call.callStack, Headroom(call.callType)) && StackFits(call.returnStack, 0)
    && (SendsValue(call) ==> call.value.value < TWO79 && call.callStack.None? && call.returnStack.None?)
  }

  /** What the contract gets to see: no address of an internal call, no value but that of a plain call. */
  function Seen(call: MulticallerCall): MulticallerCall
  {
    call.(to := if Addressed(call.callType) then call.to else ZERO_ADDRESS,
          value := if call.callType.Call? then call.value else None)
  }

  function AllSeen(calls: seq<MulticallerCall>): seq<MulticallerCall>
  {
    if calls == [] then [] else [Seen(calls[0])] + AllSeen(calls[1..])
  }

  lemma {:induction false} BigEndianTail(x: nat, m: nat, n: nat)
    ensures BigEndian(x, m + n)[m..] == BigEndian(x, n)
  {
    if n == 0 {
    } else {
      BigEndianTail(x / 256, m, n - 1);
    }
  }

  lemma {:induction false} BytesBack(x: nat, n: nat)
    requires x < Pow2(8 * n)
    ensures FromBytes(BigEndian(x, n)) == x
  {
    if n == 0 {
    } else {
      assert Pow2(8 * n) == 256 * Pow2(8 * (n - 1)) by { Pow2Add(8, 8 * (n - 1)); }
      BytesBack(x / 256, n - 1);
      assert BigEndian(x, n)[..n - 1] == BigEndian(x / 256, n - 1);
    }
  }

  lemma StackBack(stack: Option<CallStack>, headroom: nat)
    requires StackFits(stack, headroom)
    ensures DecodeStack(StackWord(stack, headroom), headroom) == stack
  {
    if stack.Some? {
      var s := stack.value;
      var d := s.dataOffset + headroom;
      FieldsBack(if s.isRelative then 1 else 0, s.stackOffset, s.dataLen, d);
      Unchanged(s.stackOffset, s.dataLen, d);
    }
  }

  lemma Unchanged(s: nat, l: nat, d: nat)
    requires s < 8 && l < 256 && d < TWO12
    ensures s % 8 == s && l % 256 == l && d % TWO12 == d
  {
  }

  lemma FieldsBack(top: nat, s: nat, l: nat, d: nat)
    requires top <= 1 && s < 8 && l < 256 && d < TWO12
    ensures var x := top * 0x80_0000 + s * TWO20 + l * TWO12 + d;
            x % TWO12 == d && x / TWO12 % 256 == l && x / TWO20 % 8 == s && (x >= 0x80_0000 <==> top == 1)
  {
    var x := top * 0x80_0000 + s * TWO20 + l * TWO12 + d;
    assert x / TWO12 == top * 0x800 + s * 0x100 + l;
    assert x / TWO20 == top * 8 + s;
  }

  /** With fitting fields, or-ing is adding. */
  lemma HeaderSum(selector: nat, len: nat, cs: nat, rs: nat)
    requires len < TWO16 && cs < TWO24 && rs < TWO24
    ensures BitOr(BitOr(BitOr(selector * TWO80, len), cs * TWO16), rs * TWO40)
            == selector * TWO80 + rs * TWO40 + cs * TWO16 + len
  {
    hide BitOr;
    FieldPowers();
    OrLow(80, selector, 0, len);
    OrZero(len);
    OrCallStack(selector, len, cs);
    OrReturnStack(selector, len + cs * TWO16, rs);
  }

  lemma OrCallStack(selector: nat, len: nat, cs: nat)
    requires len < TWO16 && cs < TWO24
    ensures BitOr(selector * TWO80 + len, cs * TWO16) == selector * TWO80 + (len + cs * TWO16)
  {
    hide BitOr, Pow2;
    FieldPowers();
    OrField(selector, 80, len, 16, cs);
  }

  lemma OrReturnStack(selector: nat, low: nat, rs: nat)
    requires low < TWO40 && rs < TWO24
    ensures BitOr(selector * TWO80 + low, rs * TWO40) == selector * TWO80 + low + rs * TWO40
  {
    hide BitOr, Pow2;
    FieldPowers();
    OrField(selector, 80, low, 40, rs);
  }

  lemma ValueSum(value: nat, len: nat)
    requires value < TWO79 && len < TWO16
    ensures Wrap(value * TWO16) == value * TWO16
    ensures BitOr(BitOr(Wrap(value * TWO16), TWO95), len) == TWO95 + value * TWO16 + len
  {
    FieldPowers();
    SmallWords();
    WrapNear(value * TWO16);
    OrDisjoint(95, value * TWO16, 1);
    OrLow(16, value + TWO79, 0, len);
    OrZero(len);
  }

  lemma HeaderFields(selector: nat, len: nat, cs: nat, rs: nat)
    requires len < TWO16 && cs < TWO24 && rs < TWO24 && selector < 0x8000
    ensures var w := selector * TWO80 + rs * TWO40 + cs * TWO16 + len;
            w % TWO16 == len && w / TWO16 % TWO24 == cs && w / TWO40 % TWO24 == rs && w / TWO80 == selector && w < TWO95
  {
    var w := selector * TWO80 + rs * TWO40 + cs * TWO16 + len;
    var x, y := selector * TWO64 + rs * TWO24 + cs, selector * TWO40 + rs;
    Digit(w, TWO16, x, len);
    Digit(x, TWO24, y, cs);
    Digit(w, TWO40, y, cs * TWO16 + len);
    Digit(y, TWO24, selector * TWO16, rs);
    Digit(w, TWO80, selector, rs * TWO40 + cs * TWO16 + len);
  }

  lemma Digit(a: nat, m: int, q: nat, r: nat)
    requires r < m && a == q * m + r
    ensures a / m == q && a % m == r
  {
    DivIs(a, m, q);
    ModIs(a, m, r, q);
  }

  /** The header reads back as everything but the address and the data. */
  lemma HeaderBack(call: MulticallerCall, selector: nat)
    requires Encodable(call) && Selector(call) == Some(selector)
    ensures var w := Header(call, selector);
            && DecodeHeader(w) == Some(Filled(Seen(call), [], []))
            && w % TWO16 == |call.data| && w < 2 * TWO95
  {
    hide Header, DecodeHeader;
    if SendsValue(call) { ValuedBack(call, selector); } else { StackedBack(call, selector); }
  }

  lemma ValuedBack(call: MulticallerCall, selector: nat)
    requires Encodable(call) && SendsValue(call)
    ensures var w := Header(call, selector);
            && DecodeHeader(w) == Some(Filled(Seen(call), [], []))
            && w % TWO16 == |call.data| && w < 2 * TWO95
  {
    hide BitOr;
    SmallWords();
    ValueSum(call.value.value, |call.data|);
    ValueBack(call.value.value, |call.data|);
  }

  lemma ValueBack(value: nat, len: nat)
    requires value < TWO79 && len < TWO16
    ensures var w := TWO95 + value * TWO16 + len;
            (w - TWO95) / TWO16 == value && w % TWO16 == len && TWO95 <= w < 2 * TWO95
  {
  }

  lemma StackedBack(call: MulticallerCall, selector: nat)
    requires Encodable(call) && Selector(call) == Some(selector) && !SendsValue(call)
    ensures var w := Header(call, selector);
            && DecodeHeader(w) == Some(Filled(Seen(call), [], []))
            && w % TWO16 == |call.data| && w < TWO95
  {
    hide BitOr, StackWord, DecodeStack, Header;
    var cs, rs := StackWord(call.callStack, Headroom(call.callType)), StackWord(call.returnStack, 0);
    PlainHeader(call, selector);
    HeaderFields(selector, |call.data|, cs, rs);
    StackBack(call.callStack, Headroom(call.callType));
    StackBack(call.returnStack, 0);
    TypeBack(call, selector);
  }

  lemma TypeBack(call: MulticallerCall, selector: nat)
    requires Selector(call) == Some(selector)
    ensures TypeOf(selector) == Some(call.callType) && selector < 0x8000
    ensures selector == VALUE_CALL <==> call.callType.Call? && call.value.Some?
  {
  }

  lemma HeaderBytes(w: nat)
    requires w < 2 * TWO95
    ensures |BigEndian(w, 32)[20..32]| == 12 && FromBytes(BigEndian(w, 32)[20..32]) == w
  {
    BigEndianTail(w, 20, 12);
    assert BigEndian(w, 32)[20..32] == BigEndian(w, 20 + 12)[20..];
    SmallPowers();
    BytesBack(w, 12);
  }

  lemma DecodesFrom(head: seq<Byte>, to: seq<Byte>, data: seq<Byte>, rest: seq<Byte>, call: MulticallerCall)
    requires |head| == 12 && DecodeHeader(FromBytes(head)) == Some(call) && FromBytes(head) % TWO16 == |data|
    requires if Addressed(call.callType) then |to| == 20 else to == []
    ensures DecodeOne(head + to + data + rest)
            == Some((Filled(call, if Addressed(call.callType) then to else ZERO_ADDRESS, data), rest))
  {
    Slices(head, to, data, rest);
  }

  /** Whatever follows, the first call of the bytes is the call that was packed. */
  lemma OneBack(call: MulticallerCall, rest: seq<Byte>)
    requires Encodable(call)
    ensures PackOne(call).Packed? && |PackOne(call).bytes| >= 12
    ensures DecodeOne(PackOne(call).bytes + rest) == Some((Seen(call), rest))
  {
    var selector := Selector(call).value;
    var w := Header(call, selector);
    HeaderBack(call, selector);
    HeaderBytes(w);
    DecodesFrom(BigEndian(w, 32)[20..32], if Addressed(call.callType) then call.to else [], call.data, rest,
                Filled(Seen(call), [], []));
  }

  lemma Slices(head: seq<Byte>, to: seq<Byte>, data: seq<Byte>, rest: seq<Byte>)
    ensures var b := head + to + data + rest;
            var i, j := |head|, |head| + |to|;
            b[..i] == head && b[i..j] == to && b[j..j + |data|] == data && b[j + |data|..] == rest
  {
  }

  /** Packed lists are uniquely decodable, whatever their length. */
  lemma {:induction false} ListBack(calls: seq<MulticallerCall>)
    requires forall i :: 0 <= i < |calls| ==> Encodable(calls[i])
    ensures PackAll(calls).Packed? && DecodeAll(PackAll(calls).bytes) == Some(AllSeen(calls))
  {
    if calls == [] {
    } else {
      ListBack(calls[1..]);
      OneBack(calls[0], PackAll(calls[1..]).bytes);
    }
  }

  /** Lists with the same bytes are the same to the contract. */
  lemma PackingInjective(calls: seq<MulticallerCall>, others: seq<MulticallerCall>)
    requires forall i :: 0 <= i < |calls| ==> Encodable(calls[i])
    requires forall i :: 0 <= i < |others| ==> Encodable(others[i])
    requires PackAll(calls) == PackAll(others)
    ensures AllSeen(calls) == AllSeen(others)
  {
    ListBack(calls);
    ListBack(others);
  }

  /** A list packs exactly when every call has an opcode. */
  lemma {:induction false} PacksWhenKnown(calls: seq<MulticallerCall>)
    ensures PackAll(calls).Packed? <==> forall i :: 0 <= i < |calls| ==> calls[i].callType !in {Unknown, CustomCall}
  {
    if calls == [] {
    } else {
      PacksWhenKnown(calls[1..]);
      if PackAll(calls).Packed? {
        forall i | 0 <= i < |calls| ensures calls[i].callType !in {Unknown, CustomCall} {
          if i > 0 { assert calls[i] == calls[1..][i - 1]; }
        }
      }
    }
  }

  /** The bound on values is tight: 2^79 more is not seen in the header. */
  lemma ValuesCollide(call: MulticallerCall, v: nat)
    requires call.callType.Call? && 0 < v < TWO79 && |call.data| < TWO16 && v + TWO79 < TWO256 && v < TWO256
    ensures PackOne(call.(value := Some(v))) == PackOne(call.(value := Some(v + TWO79)))
  {
    ValueSum(v, |call.data|);
    HighValue(v);
  }

  lemma HighValue(v: nat)
    requires v < TWO79
    ensures BitOr(Wrap((v + TWO79) * TWO16), TWO95) == TWO95 + v * TWO16 == BitOr(Wrap(v * TWO16), TWO95)
  {
    FieldPowers();
    SmallWords();
    ValueSum(v, 0);
    OrDisjoint(95, v * TWO16, 1);
    Pow2Strict(96, 256);
    WrapNear((v + TWO79) * TWO16);
    OrTwice(95, v * TWO16);
  }

  /** Or-ing a bit that is already set changes nothing. */
  lemma {:induction false} OrTwice(k: nat, lo: nat)
    requires lo < Pow2(k)
    ensures BitOr(Pow2(k) + lo, Pow2(k)) == Pow2(k) + lo
  {
    if k == 0 {
    } else {
      OrTwice(k - 1, lo / 2);
      assert (Pow2(k) + lo) / 2 == Pow2(k - 1) + lo / 2 && Pow2(k) / 2 == Pow2(k - 1);
    }
  }

  // -------------------------------------------------------------- byte by byte

  /** The opcode of a call is 0x7F followed by this byte. */
  function OpcodeByte(call: MulticallerCall): Byte
  {
    match call.callType
    case Call => if call.value.Some? then 0xFA else 0xFC
    case CalculationCall => 0xFB
    case InternalCall => 0xFD
    case StaticCall => 0xFE
    case _ => 0xFF
  }

  /** 24 bits of a stack reference whose data starts `room` bytes into the packed call. */
  function ReferenceBits(stack: Option<CallStack>, room: nat): nat
  {
    match stack
    case None => 0xFF_FFFF
    case Some(s) =>
      (if s.isRelative then 0x80_0000 else 0) + s.stackOffset % 8 * 0x10_0000 + s.dataLen % 256 * 0x1000
      + (s.dataOffset + room) % 0x1000
  }

  function ThreeBytes(x: nat): seq<Byte>
  {
    [x / 0x1_0000 % 0x100, x / 0x100 % 0x100, x % 0x100]
  }

  /** Two bytes of opcode, two of zeros, three of where to store the result, three of where to patch the
      data, 12 or 32 bytes in, two of length; then the address, unless the call is internal; then the data. */
  lemma CallBytes(call: MulticallerCall)
    requires !call.callType.Unknown? && !call.callType.CustomCall? && |call.data| < 0x1_0000 && !SendsValue(call)
    ensures var internal := call.callType.InternalCall? || call.callType.CalculationCall?;
            PackOne(call)
            == Packed([0x7F, OpcodeByte(call), 0, 0]
                      + ThreeBytes(ReferenceBits(call.returnStack, 0))
                      + ThreeBytes(ReferenceBits(call.callStack, if internal then 12 else 32))
                      + [|call.data| / 0x100, |call.data| % 0x100]
                      + (if internal then [] else call.to) + call.data)
  {
    hide BitOr, BigEndian, ThreeBytes, ReferenceBits, StackWord, Header;
    var selector := Selector(call).value;
    var room := if call.callType.InternalCall? || call.callType.CalculationCall? then 12 else 32;
    BigEndianTail(Header(call, selector), 20, 12);
    assert BigEndian(Header(call, selector), 32)[20..32] == BigEndian(Header(call, selector), 12);
    TwelveBytes(call, selector, room);
    assert selector == 0x7F00 + OpcodeByte(call);
  }

  lemma TwelveBytes(call: MulticallerCall, selector: nat, room: nat)
    requires |call.data| < TWO16 && !SendsValue(call) && selector < 0x8000 && room == Headroom(call.callType)
    ensures BigEndian(Header(call, selector), 12)
            == [selector / 0x100, selector % 0x100, 0, 0] + ThreeBytes(ReferenceBits(call.returnStack, 0))
               + ThreeBytes(ReferenceBits(call.callStack, room)) + [|call.data| / 0x100, |call.data| % 0x100]
  {
    hide BitOr, BigEndian, ThreeBytes, ReferenceBits, StackWord, Header;
    References(call.callStack, room, room);
    References(call.returnStack, 0, 0);
    PlainHeader(call, selector);
    HeaderDigits(selector, |call.data|, ReferenceBits(call.callStack, room), ReferenceBits(call.returnStack, 0));
  }

  lemma References(stack: Option<CallStack>, headroom: nat, room: nat)
    requires headroom == room
    ensures StackWord(stack, headroom) == ReferenceBits(stack, room) < TWO24
  {
  }

  lemma PlainHeader(call: MulticallerCall, selector: nat)
    requires |call.data| < TWO16 && !SendsValue(call)
    ensures Header(call, selector)
            == selector * TWO80 + StackWord(call.returnStack, 0) * TWO40
               + StackWord(call.callStack, Headroom(call.callType)) * TWO16 + |call.data|
  {
    hide BitOr;
    HeaderSum(selector, |call.data|, StackWord(call.callStack, Headroom(call.callType)), StackWord(call.returnStack, 0));
  }

  lemma HeaderDigits(selector: nat, len: nat, cs: nat, rs: nat)
    requires len < TWO16 && cs < TWO24 && rs < TWO24 && selector < 0x8000
    ensures BigEndian(selector * TWO80 + rs * TWO40 + cs * TWO16 + len, 12)
            == [selector / 0x100, selector % 0x100, 0, 0] + ThreeBytes(rs) + ThreeBytes(cs) + [len / 0x100, len % 0x100]
  {
    hide BigEndian, Pow2, ThreeBytes;
    BytePowers();
    OpcodeDigits(selector);
    SplitBytes(selector * TWO64 + rs * TWO24 + cs, len, 10, 2, TWO16);
    SplitBytes(selector * TWO40 + rs, cs, 7, 3, TWO24);
    SplitBytes(selector * TWO16, rs, 4, 3, TWO24);
    FewBytes(len);
    FewBytes(cs);
    FewBytes(rs);
  }

  lemma OpcodeDigits(selector: nat)
    requires selector < 0x8000
    ensures BigEndian(selector * TWO16, 4) == [selector / 0x100, selector % 0x100, 0, 0]
  {
    hide BigEndian, Pow2;
    BytePowers();
    SplitBytes(selector, 0, 2, 2, TWO16);
    FewBytes(selector);
    FewBytes(0);
  }

  lemma BytePowers()
    ensures Pow2(8 * 2) == TWO16 && Pow2(8 * 3) == TWO24
  {
    FieldPowers();
    Pow2Product(20, 4, TWO20, 16);
  }

  lemma FewBytes(x: nat)
    ensures BigEndian(x, 3) == ThreeBytes(x)
    ensures BigEndian(x, 2) == [x / 0x100 % 0x100, x % 0x100]
    ensures x < 0x1_0000 ==> x / 0x100 % 0x100 == x / 0x100
  {
    assert BigEndian(x, 1) == [x % 0x100];
    assert BigEndian(x / 0x100, 1) == [x / 0x100 % 0x100];
    assert BigEndian(x / 0x100 / 0x100, 1) == [x / 0x1_0000 % 0x100];
    assert BigEndian(x / 0x100, 2) == BigEndian(x / 0x100 / 0x100, 1) + [x / 0x100 % 0x100];
  }

  lemma {:induction false} SplitBytes(x: nat, y: nat, m: nat, n: nat, p: nat)
    requires p == Pow2(8 * n) && y < p
    ensures BigEndian(x * p + y, m + n) == BigEndian(x, m) + BigEndian(y, n)
  {
    if n == 0 {
      assert x * p + y == x;
    } else {
      var q := Pow2(8 * (n - 1));
      assert p == 256 * q by { Pow2Add(8, 8 * (n - 1)); }
      OneByteLess(x, y, q);
      SplitBytes(x, y / 256, m, n - 1, q);
    }
  }

  lemma OneByteLess(x: nat, y: nat, q: nat)
    requires y < 256 * q
    ensures (x * (256 * q) + y) / 256 == x * q + y / 256 && (x * (256 * q) + y) % 256 == y % 256 && y / 256 < q
  {
    Digit(x * (256 * q) + y, 256, x * q + y / 256, y % 256);
  }

  /** A value is packed with the top bit of ten bytes set, before the length. */
  lemma ValueBytes(call: MulticallerCall)
    requires SendsValue(call) && call.value.value < 0x8000_0000_0000_0000_0000 && |call.data| < 0x1_0000
    ensures PackOne(call)
            == Packed(BigEndian(0x8000_0000_0000_0000_0000 + call.value.value, 10)
                      + [|call.data| / 0x100, |call.data| % 0x100] + call.to + call.data)
  {
    hide BitOr, BigEndian;
    var value, len := call.value.value, |call.data|;
    ValueSum(value, len);
    BigEndianTail(Header(call, VALUE_CALL), 20, 12);
    FieldPowers();
    SplitBytes(TWO79 + value, len, 10, 2, TWO16);
    FewBytes(len);
  }

  /** Big-endian bytes, each worth 256 times the next, and none of them too many. */
  lemma {:induction false} BigEndianAt(x: nat, n: nat, i: nat)
    requires i < n
    ensures BigEndian(x, n)[n - 1 - i] == x / Pow2(8 * i) % 256
  {
    if i == 0 {
      DivBounds(x, 1);
    } else {
      BigEndianAt(x / 256, n - 1, i - 1);
      assert Pow2(8 * i) == 256 * Pow2(8 * (i - 1)) by { Pow2Add(8, 8 * (i - 1)); }
      FloorFloor(x, 256, Pow2(8 * (i - 1)));
    }
  }
}
