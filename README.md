# BMM050 SPI support layer

A Dafny model of `bmm050_support.c` from the BMF055 flight controller. This
file binds the vendor BMM050 magnetometer driver to the board's SPI master. It
supplies two bus callbacks, `bmm_spi_write` and `bmm_spi_read`. Each one runs
one register transaction:

1. select the sensor's slave;
2. send the register address byte, retrying up to 100 times until the SPI
   driver answers `STATUS_OK`;
3. move the payload, with a retry loop of the same kind;
4. deselect the slave;
5. return 0 or -1.

A write sends the address byte unchanged. A read sends it with bit 7 set
(`reg_addr | 0x80`) and passes the dummy value 0 to every read attempt. Both
phases store their status in the same variable, so only the payload phase
decides the result. `bmm_init` configures the slave, fills the driver's three
callback slots, calls `bmm050_init` and then requests normal mode.

Files:

- `platform.dfy` (module `Platform`) holds the code this file calls but does
  not own: the SPI master driver and the vendor driver. A `Board` object
  stands for the globals `spi_master_instance`, `bmm050_spi_slave` and
  `bmm050`. Every foreign call appends one `Call` to `Board.log`. The
  statuses the SPI driver returns come from a script fixed when the board is
  built: `StatusAt(answers, p)` is the status of the transfer at log position
  `p`. The bytes a read receives come from the device and are left arbitrary.
- `retry.dfy` (module `Retry`) specifies the do/while retry loop.
  `Attempts(resp, start)` is the number of attempts a phase makes.
  `LastStatus` is the status left in the loop variable when the phase ends.
- `bmm050_support.dfy` (module `Bmm050Support`) holds the three operations.
  The two retry loops are imperative methods, proved against `Attempts`. A
  whole transaction is specified by the functions `Transaction` (the calls it
  logs) and `TransactionResult` (its return value). Lemmas state the protocol
  properties about those functions.

Points a reader might assume but the code does not do:

- `bmm_spi_read` passes `rx_data` to every read attempt, so a failing attempt
  may already have written some of the first `length` bytes. In the model
  every read attempt may change the first `length` cells of `rx`, whatever
  its status.
- The code does not check that `reg_addr` lies in [0, 127]. The model accepts
  any byte, and `ReadAddressOfRegister` states what holds for addresses in
  that range.
- The status variable starts as `STATUS_NO_CHANGE`. A phase can end on that
  value only if the SPI driver itself returns it, because every loop makes at
  least one attempt. The model allows the same case, and such a status counts
  as a failure (-1).

## Model

| member | source | states |
|---|---|---|
| `Retry.AttemptsFrom` | BMF055FlightController_MW21/src/Sensors/bmm050_support.c:130-135 | once k attempts have failed, the loop makes more than k attempts and never more than 100 in all |
| `Retry.Attempts` | BMF055FlightController_MW21/src/Sensors/bmm050_support.c:130-135 | every retry phase makes at least 1 and at most 100 attempts |
| `Retry.AttemptsMeaning` | BMF055FlightController_MW21/src/Sensors/bmm050_support.c:131-135 | every attempt before the last one failed; a phase that stops before 100 attempts stops on a STATUS_OK |
| `Retry.StopsAtFirstOk` | BMF055FlightController_MW21/src/Sensors/bmm050_support.c:131-135 | if attempt k+1 (k < 100) is the first to answer STATUS_OK, the phase makes exactly k+1 attempts and ends OK |
| `Retry.AllAttemptsFail` | BMF055FlightController_MW21/src/Sensors/bmm050_support.c:138-142 | if no attempt answers STATUS_OK, the phase makes exactly 100 attempts and ends failed |
| `Retry.SucceedsIffSomeAttemptOk` | BMF055FlightController_MW21/src/Sensors/bmm050_support.c:138-142 | a phase ends on STATUS_OK if and only if one of its first 100 possible attempts answers STATUS_OK |
| `Bmm050Support.WriteRetrying` | BMF055FlightController_MW21/src/Sensors/bmm050_support.c:130-142 | a write retry loop logs exactly `Attempts` identical buffer writes and leaves the status of the last one |
| `Bmm050Support.ReadRetrying` | BMF055FlightController_MW21/src/Sensors/bmm050_support.c:188-193 | the read retry loop logs exactly `Attempts` identical reads with the same length and dummy, leaves the status of the last one, and never touches the buffer cells from `length` on |
| `Bmm050Support.SpiWrite` | BMF055FlightController_MW21/src/Sensors/bmm050_support.c:121-151 | the log grows by the write transaction with the unmodified address byte and the caller's `length` bytes as payload; the result is the transaction's result |
| `Bmm050Support.SpiRead` | BMF055FlightController_MW21/src/Sensors/bmm050_support.c:168-202 | the log grows by the read transaction with the tagged address byte and reads of `length` bytes with dummy 0; the result is the transaction's result; the cells of `rx` from `length` on are unchanged |
| `Bmm050Support.ReadAddressByte` | BMF055FlightController_MW21/src/Sensors/bmm050_support.c:177 | the read address byte has bit 7 set and the caller's low seven bits |
| `Bmm050Support.ReadAddressOfRegister` | BMF055FlightController_MW21/src/Sensors/bmm050_support.c:177 | for registers in [0, 127] the read byte is the address plus 0x80; it differs from every write address; it is injective; it ignores the caller's bit 7 |
| `Bmm050Support.TransactionFraming` | BMF055FlightController_MW21/src/Sensors/bmm050_support.c:128-144 | for write transactions and for read transactions alike (lines 179-195), a transaction starts with the one select and ends with the one deselect, with no select in between; the address byte is sent on every attempt of the first phase and the same payload call on every attempt of the second; length is between 4 and 202 |
| `Bmm050Support.ResultIffPayloadSucceeds` | BMF055FlightController_MW21/src/Sensors/bmm050_support.c:137-150 | the result is 0 if and only if some payload attempt answers STATUS_OK; otherwise it is -1 after 100 payload attempts |
| `Bmm050Support.AddressFailureIgnored` | BMF055FlightController_MW21/src/Sensors/bmm050_support.c:130-150 | when all 100 address attempts fail but a payload attempt succeeds, the payload starts after 100 address calls and the call returns 0 |
| `Bmm050Support.PayloadFailureReported` | BMF055FlightController_MW21/src/Sensors/bmm050_support.c:137-150 | when every payload attempt fails, the payload phase makes exactly 100 attempts and the call returns -1 |
| `Bmm050Support.AlwaysOkTransaction` | BMF055FlightController_MW21/src/Sensors/bmm050_support.c:128-150 | when the first address attempt and the first payload attempt answer STATUS_OK, a transaction is select, one address call, one payload call, deselect, and it returns 0 |
| `Bmm050Support.BmmInit` | BMF055FlightController_MW21/src/Sensors/bmm050_support.c:89-104 | the log grows by exactly the init calls, and the driver instance ends with all three callbacks bound |
| `Bmm050Support.InitCallOrder` | BMF055FlightController_MW21/src/Sensors/bmm050_support.c:91-103 | the slave is configured once and first; the driver init call sees all three callbacks bound; normal mode is requested once and last; init makes no bus transfer of its own |

## Left out

- `bmm_delay_msec` (lines 214-217) is not modelled. It only forwards to a timer wait and has no logic of its own. The model records that it is bound as the delay callback.
- The unused `dev_addr` parameter of both bus callbacks is dropped.
- The SPI hardware and the SPI driver's internals are not modelled. Statuses come from the board's script. Every status code other than `STATUS_OK` and `STATUS_NO_CHANGE` is one `Error` value.
- The vendor driver's internals are not modelled. `bmm050_init` and `bmm050_set_functional_state` each appear as one log entry. The bus transactions that `bmm050_init` makes through the callbacks are not in the log. Neither are the other fields it sets in the driver instance.
- The status script is finite, and a transfer past its end answers an error. This loses nothing: one transaction makes at most 202 calls, so a long enough script describes any sequence of answers.
- `Bmm050Support.ReadRetrying`: the received bytes are not modelled, because they come from the device. The contract states only which cells a read may change.
- `Bmm050Support.SpiRead`: for the same reason, the contract does not say which bytes `rx` holds afterwards. It states only that the cells from `length` on are unchanged.
- The value of `BMM050_SS_PIN` is not modelled. It is defined in a header that is not part of this model, so the board carries it as a constant.
- `reg_data` is a value sequence, not a pointer. The model assumes that the write buffer, the read buffer and the global state do not alias.
- `loop_count` is an unbounded counter in the model. It never exceeds 100, so the `uint16_t` in the code never wraps and nothing is lost.
