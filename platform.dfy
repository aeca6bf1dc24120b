/**
 The code outside bmm050_support.c that it calls: the SPI master driver
 (slave configuration, slave select, blocking buffer write and read) and the
 vendor BMM050 driver (its instance record, its init entry point and its
 functional-state command).

 None of that code is modelled. Every call is recorded, in order, in the log
 of a `Board`, and the statuses the hardware gives are a script fixed when the
 board is built: `StatusAt(answers, p)` is the status returned by the
 transfer that occupies position `p` of the log. The bytes a read receives
 come from the device and are left arbitrary.
 */
module Platform {

  /** `enum status_code`, reduced to the three values this layer tells apart:
      STATUS_OK, STATUS_NO_CHANGE, and every error code as `Error`. */
  datatype Status = Ok | NoChange | Error

  /** The status a script of bus answers gives at log position `p`; past its
      end every transfer fails. */
  function StatusAt(script: seq<Status>, p: nat): Status
  {
    if p < |script| then script[p] else Error
  }

  datatype Option<T> = None | Some(value: T)

  /** `uint8_t` where the source only counts with it. */
  newtype uint8 = x: int | 0 <= x < 256

  /** The functions of bmm050_support.c that can be stored in a callback slot. */
  datatype Callback = BmmSpiWrite | BmmSpiRead | BmmDelayMsec

  /** The callback slots of the vendor driver instance `bmm050`. */
  datatype Bmm050 = Bmm050(busWrite: Option<Callback>, busRead: Option<Callback>, delayMsec: Option<Callback>)

  /** Functional states of the sensor that this file mentions: the normal
      mode bmm_init requests, and the sleep mode the sensor starts in
      after bmm050_init (the comment at line 102 of bmm050_support.c). */
  datatype FunctionalState = NormalMode | SleepMode

  /** One call into code outside this file. */
  datatype Call =
    | ConfigureSlave(pin: nat)                  // spi_configure_slave
    | SelectSlave(asserted: bool)               // spi_select_slave
    | WriteBuffer(bytes: seq<bv8>)              // spi_write_buffer_wait
    | ReadBuffer(length: uint8, dummy: bv16)    // spi_read_buffer_wait
    | DriverInit(instance: Bmm050)              // bmm050_init, with the instance as passed
    | SetFunctionalState(mode: FunctionalState) // bmm050_set_functional_state

  /** The global state bmm050_support.c works on: the SPI master instance with
      the sensor's slave, and the driver instance `bmm050`. */
  class Board {
    var log: seq<Call>
    var bmm050: Bmm050
    /** BMM050_SS_PIN, defined in a header that is not part of this model. */
    const ssPin: nat
    const answers: seq<Status>

    constructor (ssPin: nat, answers: seq<Status>)
      ensures log == [] && bmm050 == Bmm050(None, None, None)
      ensures this.ssPin == ssPin && this.answers == answers
    {
      log := [];
      bmm050 := Bmm050(None, None, None);
      this.ssPin := ssPin;
      this.answers := answers;
    }

    method SpiConfigureSlave(pin: nat)
      modifies this`log
      ensures log == old(log) + [ConfigureSlave(pin)]
    {
      log := log + [ConfigureSlave(pin)];
    }

    method SpiSelectSlave(asserted: bool)
      modifies this`log
      ensures log == old(log) + [SelectSlave(asserted)]
    {
      log := log + [SelectSlave(asserted)];
    }

    /** One blocking write of `bytes`; its status is the script's answer for
        the position the transfer takes in the log. */
    method SpiWriteBufferWait(bytes: seq<bv8>) returns (s: Status)
      modifies this`log
      ensures log == old(log) + [WriteBuffer(bytes)]
      ensures s == StatusAt(answers, |old(log)|)
    {
      s := StatusAt(answers, |log|);
      log := log + [WriteBuffer(bytes)];
    }

    /** One blocking read of `length` bytes into `rx`. The received bytes come
        from the device and may be anything, whatever the status; the cells
        from `length` on keep their value. */
    method SpiReadBufferWait(rx: array<bv8>, length: uint8, dummy: bv16) returns (s: Status)
      requires length as int <= rx.Length
      modifies this`log, rx
      ensures log == old(log) + [ReadBuffer(length, dummy)]
      ensures s == StatusAt(answers, |old(log)|)
      ensures forall i :: length as int <= i < rx.Length ==> rx[i] == old(rx[i])
    {
      forall i | 0 <= i < length as int {
        rx[i] := *;
      }
      s := StatusAt(answers, |log|);
      log := log + [ReadBuffer(length, dummy)];
    }

    /** bmm050_init, which receives the instance with its slots as they are now. */
    method Bmm050Init()
      modifies this`log
      ensures log == old(log) + [DriverInit(bmm050)]
    {
      log := log + [DriverInit(bmm050)];
    }

    method Bmm050SetFunctionalState(mode: FunctionalState)
      modifies this`log
      ensures log == old(log) + [SetFunctionalState(mode)]
    {
      log := log + [SetFunctionalState(mode)];
    }
  }
}
