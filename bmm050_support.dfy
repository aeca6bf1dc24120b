/**
 bmm050_support.c: the bus callbacks bmm_spi_write and bmm_spi_read that the
 BMM050 magnetometer driver uses to reach the sensor over SPI, and bmm_init,
 which wires them into the driver and starts the sensor.

 A register transaction selects the sensor's slave, sends the register
 address in a retry phase, moves the payload in a second retry phase and
 deselects the slave. Only the status of the payload phase decides the
 result, because both phases store their status in the same variable.
 */
module Bmm050Support {
  import opened Platform
  import opened Retry

  /** The `int8_t` result of the bus callbacks. */
  newtype int8 = x: int | -128 <= x < 128

  /** BMM050_SUCCESS and BMM050_ERROR. */
  const Bmm050Success: int8 := 0
  const Bmm050Error: int8 := -1

  /** Bit 7 of the address byte marks a read. */
  const ReadFlag: bv8 := 0x80

  /** The address byte bmm_spi_read sends: bit 7 set, the low seven bits the caller's. */
  function ReadAddressByte(regAddr: bv8): (b: bv8)
    ensures b & 0x80 == 0x80
    ensures b & 0x7F == regAddr & 0x7F
  {
    regAddr | ReadFlag
  }

  /** `n` copies of the same call, as a retry loop logs them. */
  function Repeat(c: Call, n: nat): (r: seq<Call>)
    ensures |r| == n
  {
    if n == 0 then [] else Repeat(c, n - 1) + [c]
  }

  /** One more retry appends one more copy to the log. */
  lemma RepeatStep(log: seq<Call>, c: Call, n: nat)
    ensures log + Repeat(c, n) + [c] == log + Repeat(c, n + 1)
  {
  }

  lemma {:induction false} RepeatAt(c: Call, n: nat)
    ensures forall i :: 0 <= i < n ==> Repeat(c, n)[i] == c
  {
    if n > 0 {
      RepeatAt(c, n - 1);
    }
  }

  /** Log position of the first address attempt of a transaction whose slave
      select is at position `start`. */
  function AddressStart(start: nat): nat
  {
    start + 1
  }

  /** Log position of the first payload attempt. */
  function PayloadStart(resp: seq<Status>, start: nat): nat
  {
    AddressStart(start) + Attempts(resp, AddressStart(start))
  }

  /** The calls one transaction makes, when its slave select is at log position `start`. */
  function Transaction(resp: seq<Status>, start: nat, addrByte: bv8, payload: Call): seq<Call>
  {
    [SelectSlave(true)]
      + Repeat(WriteBuffer([addrByte]), Attempts(resp, AddressStart(start)))
      + Repeat(payload, Attempts(resp, PayloadStart(resp, start)))
      + [SelectSlave(false)]
  }

  /** The value a transaction returns. */
  function TransactionResult(resp: seq<Status>, start: nat): int8
  {
    if LastStatus(resp, PayloadStart(resp, start)) == Ok then Bmm050Success else Bmm050Error
  }

  /** One do/while retry loop around spi_write_buffer_wait. */
  method WriteRetrying(board: Board, bytes: seq<bv8>) returns (stat: Status)
    modifies board`log
    ensures board.log == old(board.log) + Repeat(WriteBuffer(bytes), Attempts(board.answers, |old(board.log)|))
    ensures stat == LastStatus(board.answers, |old(board.log)|)
  {
    ghost var log0, resp := board.log, board.answers;
    var loopCount: nat := 0;
    stat := board.SpiWriteBufferWait(bytes);
    loopCount := loopCount + 1;
    while stat != Ok && loopCount < MaxAttempts
      invariant 1 <= loopCount <= MaxAttempts
      invariant board.log == log0 + Repeat(WriteBuffer(bytes), loopCount)
      invariant stat == Answer(resp, |log0|, loopCount - 1)
      invariant AttemptsFrom(resp, |log0|, loopCount - 1) == Attempts(resp, |log0|)
    {
      AttemptsFromStep(resp, |log0|, loopCount - 1);
      AnswerAtPosition(resp, |log0|, loopCount, |board.log|);
      stat := board.SpiWriteBufferWait(bytes);
      RepeatStep(log0, WriteBuffer(bytes), loopCount);
      loopCount := loopCount + 1;
    }
    AttemptsFromStopsAt(resp, |log0|, loopCount - 1, loopCount - 1);
  }

  /** The do/while retry loop around spi_read_buffer_wait. Every attempt may
      write the first `length` cells of `rx`, whatever its status; the cells
      from `length` on are never touched. */
  method ReadRetrying(board: Board, rx: array<bv8>, length: uint8, dummy: bv16) returns (stat: Status)
    requires length as int <= rx.Length
    modifies board`log, rx
    ensures board.log == old(board.log) + Repeat(ReadBuffer(length, dummy), Attempts(board.answers, |old(board.log)|))
    ensures stat == LastStatus(board.answers, |old(board.log)|)
    ensures forall i :: length as int <= i < rx.Length ==> rx[i] == old(rx[i])
  {
    ghost var log0, resp := board.log, board.answers;
    var loopCount: nat := 0;
    stat := board.SpiReadBufferWait(rx, length, dummy);
    loopCount := loopCount + 1;
    while stat != Ok && loopCount < MaxAttempts
      invariant 1 <= loopCount <= MaxAttempts
      invariant board.log == log0 + Repeat(ReadBuffer(length, dummy), loopCount)
      invariant stat == Answer(resp, |log0|, loopCount - 1)
      invariant AttemptsFrom(resp, |log0|, loopCount - 1) == Attempts(resp, |log0|)
      invariant forall i :: length as int <= i < rx.Length ==> rx[i] == old(rx[i])
    {
      AttemptsFromStep(resp, |log0|, loopCount - 1);
      AnswerAtPosition(resp, |log0|, loopCount, |board.log|);
      stat := board.SpiReadBufferWait(rx, length, dummy);
      RepeatStep(log0, ReadBuffer(length, dummy), loopCount);
      loopCount := loopCount + 1;
    }
    AttemptsFromStopsAt(resp, |log0|, loopCount - 1, loopCount - 1);
  }

  /** Glues the log of one transaction together from its four parts. */
  lemma TransactionSplit(log0: seq<Call>, log: seq<Call>, resp: seq<Status>, addrByte: bv8, payload: Call,
                         addrCalls: seq<Call>, payloadCalls: seq<Call>)
    requires addrCalls == Repeat(WriteBuffer([addrByte]), Attempts(resp, AddressStart(|log0|)))
    requires payloadCalls == Repeat(payload, Attempts(resp, PayloadStart(resp, |log0|)))
    requires log == log0 + [SelectSlave(true)] + addrCalls + payloadCalls + [SelectSlave(false)]
    ensures log == log0 + Transaction(resp, |log0|, addrByte, payload)
  {
    assert Transaction(resp, |log0|, addrByte, payload)
      == [SelectSlave(true)] + addrCalls + payloadCalls + [SelectSlave(false)];
  }

  /** bmm_spi_write: write the first `length` bytes of `regData` to register `regAddr`. */
  method SpiWrite(board: Board, regAddr: bv8, regData: seq<bv8>, length: uint8) returns (r: int8)
    requires length as int <= |regData|
    modifies board`log
    ensures board.log == old(board.log)
      + Transaction(board.answers, |old(board.log)|, regAddr, WriteBuffer(regData[..length]))
    ensures r == TransactionResult(board.answers, |old(board.log)|)
  {
    ghost var log0, start, resp := board.log, |board.log|, board.answers;
    var bmmWriteStat := NoChange;
    board.SpiSelectSlave(true);
    bmmWriteStat := WriteRetrying(board, [regAddr]);
    ghost var log1 := board.log;
    ghost var addrCalls := log1[|log0| + 1..];
    assert |log1| == PayloadStart(resp, start);
    bmmWriteStat := WriteRetrying(board, regData[..length]);
    ghost var payloadCalls := board.log[|log1|..];
    board.SpiSelectSlave(false);
    TransactionSplit(log0, board.log, resp, regAddr, WriteBuffer(regData[..length]), addrCalls, payloadCalls);
    if bmmWriteStat != Ok {
      return Bmm050Error;
    }
    return Bmm050Success;
  }

  /** bmm_spi_read: read `length` bytes of register `regAddr` into `rx`. */
  method SpiRead(board: Board, regAddr: bv8, rx: array<bv8>, length: uint8) returns (r: int8)
    requires length as int <= rx.Length
    modifies board`log, rx
    ensures board.log == old(board.log)
      + Transaction(board.answers, |old(board.log)|, ReadAddressByte(regAddr), ReadBuffer(length, 0))
    ensures r == TransactionResult(board.answers, |old(board.log)|)
    ensures forall i :: length as int <= i < rx.Length ==> rx[i] == old(rx[i])
  {
    ghost var log0, start, resp := board.log, |board.log|, board.answers;
    var bmmReadStat := NoChange;
    var dummy: bv16 := 0;
    var addr := ReadAddressByte(regAddr);
    board.SpiSelectSlave(true);
    bmmReadStat := WriteRetrying(board, [addr]);
    ghost var log1 := board.log;
    ghost var addrCalls := log1[|log0| + 1..];
    assert |log1| == PayloadStart(resp, start);
    bmmReadStat := ReadRetrying(board, rx, length, dummy);
    ghost var payloadCalls := board.log[|log1|..];
    board.SpiSelectSlave(false);
    TransactionSplit(log0, board.log, resp, addr, ReadBuffer(length, dummy), addrCalls, payloadCalls);
    if bmmReadStat != Ok {
      return Bmm050Error;
    }
    return Bmm050Success;
  }

  /** Every transaction, of bmm_spi_write and of bmm_spi_read alike, is
      framed by exactly one select and one deselect, sends its address byte
      on every attempt of the first phase and the same payload call on every
      attempt of the second. */
  lemma TransactionFraming(resp: seq<Status>, start: nat, addrByte: bv8, payload: Call)
    requires !payload.SelectSlave?
    ensures var t := Transaction(resp, start, addrByte, payload);
      && |t| == 2 + Attempts(resp, AddressStart(start)) + Attempts(resp, PayloadStart(resp, start))
      && 4 <= |t| <= 2 + 2 * MaxAttempts
      && t[0] == SelectSlave(true)
      && t[|t| - 1] == SelectSlave(false)
      && (forall i :: 0 < i < |t| - 1 ==> !t[i].SelectSlave?)
      && (forall i :: 1 <= i <= Attempts(resp, AddressStart(start)) ==> t[i] == WriteBuffer([addrByte]))
      && (forall i :: Attempts(resp, AddressStart(start)) < i < |t| - 1 ==> t[i] == payload)
  {
    var na := Attempts(resp, AddressStart(start));
    var t := Transaction(resp, start, addrByte, payload);
    var addrCalls := Repeat(WriteBuffer([addrByte]), na);
    var payloadCalls := Repeat(payload, Attempts(resp, PayloadStart(resp, start)));
    RepeatAt(WriteBuffer([addrByte]), na);
    RepeatAt(payload, Attempts(resp, PayloadStart(resp, start)));
    assert t == [SelectSlave(true)] + addrCalls + payloadCalls + [SelectSlave(false)];
    forall i | 1 <= i <= na
      ensures t[i] == WriteBuffer([addrByte])
    {
      assert t[i] == addrCalls[i - 1];
    }
    forall i | na < i < |t| - 1
      ensures t[i] == payload
    {
      assert t[i] == payloadCalls[i - 1 - na];
    }
  }

  /** A transaction returns 0 exactly when one of the (at most 100) payload
      attempts answers STATUS_OK, and -1 otherwise, after all 100 payload attempts. */
  lemma ResultIffPayloadSucceeds(resp: seq<Status>, start: nat)
    ensures TransactionResult(resp, start) == Bmm050Success <==>
      exists j :: 0 <= j < MaxAttempts && Answer(resp, PayloadStart(resp, start), j) == Ok
    ensures TransactionResult(resp, start) != Bmm050Success ==>
      TransactionResult(resp, start) == Bmm050Error && Attempts(resp, PayloadStart(resp, start)) == MaxAttempts
  {
    SucceedsIffSomeAttemptOk(resp, PayloadStart(resp, start));
    AttemptsMeaning(resp, PayloadStart(resp, start));
  }

  /** The address phase alone never makes a transaction fail: when all 100
      address attempts fail but a payload attempt succeeds, the result is 0. */
  lemma AddressFailureIgnored(resp: seq<Status>, start: nat)
    requires forall i :: 0 <= i < MaxAttempts ==> Answer(resp, AddressStart(start), i) != Ok
    requires exists j :: 0 <= j < MaxAttempts && Answer(resp, PayloadStart(resp, start), j) == Ok
    ensures Attempts(resp, AddressStart(start)) == MaxAttempts
    ensures PayloadStart(resp, start) == AddressStart(start) + MaxAttempts
    ensures TransactionResult(resp, start) == Bmm050Success
  {
    AllAttemptsFail(resp, AddressStart(start));
    SucceedsIffSomeAttemptOk(resp, PayloadStart(resp, start));
  }

  /** When every payload attempt fails, the payload phase makes exactly 100 attempts and the result is -1. */
  lemma PayloadFailureReported(resp: seq<Status>, start: nat)
    requires forall j :: 0 <= j < MaxAttempts ==> Answer(resp, PayloadStart(resp, start), j) != Ok
    ensures Attempts(resp, PayloadStart(resp, start)) == MaxAttempts
    ensures TransactionResult(resp, start) == Bmm050Error
  {
    AllAttemptsFail(resp, PayloadStart(resp, start));
  }

  /** When the first address attempt and the first payload attempt both
      answer STATUS_OK, a transaction is select, one address call, one
      payload call, deselect, and returns 0. */
  lemma AlwaysOkTransaction(resp: seq<Status>, start: nat, addrByte: bv8, payload: Call)
    requires Answer(resp, AddressStart(start), 0) == Ok
    requires Answer(resp, AddressStart(start) + 1, 0) == Ok  // the first payload attempt, once the address took one
    ensures Transaction(resp, start, addrByte, payload)
      == [SelectSlave(true), WriteBuffer([addrByte]), payload, SelectSlave(false)]
    ensures TransactionResult(resp, start) == Bmm050Success
  {
    StopsAtFirstOk(resp, AddressStart(start), 0);
    assert Answer(resp, PayloadStart(resp, start), 0) == Ok;
    StopsAtFirstOk(resp, PayloadStart(resp, start), 0);
  }

  /** For a register address in [0, 127] the read address byte is the address
      plus 0x80: distinct registers keep distinct read bytes, none of which is
      a write address, and the caller's bit 7 makes no difference. */
  lemma ReadAddressOfRegister(regAddr: bv8, other: bv8)
    requires regAddr < 0x80 && other < 0x80
    ensures ReadAddressByte(regAddr) as int == regAddr as int + 0x80
    ensures ReadAddressByte(regAddr) != other
    ensures ReadAddressByte(regAddr) == ReadAddressByte(other) <==> regAddr == other
    ensures ReadAddressByte(regAddr | 0x80) == ReadAddressByte(regAddr)
  {
  }

  /** The driver instance with all three callbacks of this file bound. */
  const BoundInstance: Bmm050 := Bmm050(Some(BmmSpiWrite), Some(BmmSpiRead), Some(BmmDelayMsec))

  /** The external calls bmm_init makes, in order. */
  function InitCalls(pin: nat): seq<Call>
  {
    [ConfigureSlave(pin), DriverInit(BoundInstance), SetFunctionalState(NormalMode)]
  }

  /** bmm_init: configure the slave, bind the callbacks, initialise the driver, start normal mode. */
  method BmmInit(board: Board)
    modifies board`log, board`bmm050
    ensures board.log == old(board.log) + InitCalls(board.ssPin)
    ensures board.bmm050 == BoundInstance
  {
    board.SpiConfigureSlave(board.ssPin);
    board.bmm050 := board.bmm050.(busWrite := Some(BmmSpiWrite));
    board.bmm050 := board.bmm050.(busRead := Some(BmmSpiRead));
    board.bmm050 := board.bmm050.(delayMsec := Some(BmmDelayMsec));
    board.Bmm050Init();
    board.Bmm050SetFunctionalState(NormalMode);
  }

  /** bmm_init configures the slave once, hands the driver an instance with
      all three callbacks already bound, then requests normal mode once, and
      makes no bus transfer of its own. */
  lemma InitCallOrder(pin: nat)
    ensures var t := InitCalls(pin);
      && |t| == 3
      && t[0] == ConfigureSlave(pin)
      && (forall i :: 0 < i < |t| ==> !t[i].ConfigureSlave?)
      && t[1].DriverInit?
      && t[1].instance.busWrite == Some(BmmSpiWrite)
      && t[1].instance.busRead == Some(BmmSpiRead)
      && t[1].instance.delayMsec == Some(BmmDelayMsec)
      && (forall i :: 0 <= i < |t| && i != 1 ==> !t[i].DriverInit?)
      && t[2] == SetFunctionalState(NormalMode)
      && (forall i :: 0 <= i < |t| - 1 ==> !t[i].SetFunctionalState?)
      && (forall i :: 0 <= i < |t| ==> !t[i].SelectSlave? && !t[i].WriteBuffer? && !t[i].ReadBuffer?)
  {
  }
}
