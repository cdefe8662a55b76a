# Doormon: a Dafny model of the firmware kernel and the host monitor

Doormon is an ESP32 firmware that watches one input pin. A falling edge on
the pin sets a "triggered" latch. An HTTP server on the local network
reports the latch (`GET /status`) and clears it (`GET` or `POST /reset`).
Before serving, the firmware joins a Wi-Fi network. It gives up after a
bounded number of retries. A Python script on a host finds the device over
mDNS, polls `/status` every second, prints `Triggered!` when the state
rises from false to true, and sends a reset when the user types `r`.

The model has two modules, one per source file:

- `Firmware` (`firmware.dfy`) models `src/main.c`.
  - The class `Doormon` holds the file's statics: `s_retry_num`, the
    CONNECTED and FAIL bits of the event group, and `s_triggered`. It also
    has three ghost flags: flash erased, trigger interrupt armed, HTTP
    server started. Its methods are the event handler, `wifi_init_sta`, the
    interrupt handler, the three HTTP handlers, the dispatch set up by
    `start_httpd`, and `app_main`.
  - The event handler, `wifi_init_sta`, the interrupt handler and the
    `/status` and `POST /reset` handlers are specified by pure functions of
    the old state: `WifiStep`, `WaitFor`, `LatchStep` and `StatusBody`.
    `GET /reset` and the dispatch are specified by what they answer and how
    they leave the latch. `app_main` is specified by `NeedsErase`,
    `NvsReady` and `WaitFor`. The lemmas about event traces and latch
    operation sequences are stated over these functions.
  - The interrupt handler runs only once `app_main` has armed the trigger
    input, and the HTTP handlers only once the server is started; their
    preconditions say so through the ghost flags.
- `Monitor` (`monitor.dfy`) models `scripts/doormon_monitor.py`.
  - Pure parts: the reset-command test (`str.strip`, `str.lower`), how
    `get_status` reads a reply, and how the discovery listener accepts a
    service.
  - The class `Monitor` holds `prev_triggered`, the `reset_requested` event
    and whether `input_thread` is still reading. Its methods are one turn of
    `input_thread` and one iteration of `main`'s loop. A loop over a finite
    sequence of ticks stands for the endless loop.
  - The class `Listener` holds the listener's `result` and has `add_service`.
- `Wrappers` (`wrappers.dfy`) holds the `Option` datatype.

Calls into ESP-IDF, the network and the clock are not modelled. Where their
outcome matters, it is an input:

- the codes `nvs_flash_init` and `nvs_flash_erase` return;
- the Wi-Fi events that arrive;
- whether `httpd_start` succeeds;
- the HTTP replies the monitor receives;
- the service records mDNS delivers.

Where an ESP-IDF call has an effect, the model shows it as a result
("`esp_wifi_connect` is called") or as a field.

The wait in `wifi_init_sta` blocks on the event group with `portMAX_DELAY`.
Meanwhile the event task runs the handler. The model delivers a finite list
of events one at a time until either bit is set (`WaitFor`,
`Doormon.WifiInitSta`). `Blocked` means the events ran out first; the real
call would still be waiting.

After the FAIL bit is set, `app_main` returns; it does not restart. The
wait in `wifi_init_sta` has no timeout (`portMAX_DELAY`).

## Model

| member | source | states |
|---|---|---|
| `Firmware.Doormon.constructor` | src/main.c:42-45 | The statics start zeroed: retry counter 0, both bits clear, latch false; nothing erased, armed or started. |
| `Firmware.Doormon.HandleWifiEvent` | src/main.c:47-67 | STA_START issues a connect and changes nothing. A disconnect below WIFI_MAX_RETRY issues exactly one connect, adds exactly one to the counter and leaves both bits. A disconnect at or above the maximum sets FAIL, issues no connect and leaves the counter. GOT_IP zeroes the counter and sets CONNECTED. Any other event does nothing. Bits are only ever set, and the counter range is preserved. |
| `Firmware.RetryStaysInRange` | src/main.c:53-55 | Starting within 0..WIFI_MAX_RETRY, the counter stays within that range under any sequence of events. |
| `Firmware.BitsAreSticky` | src/main.c:58-65 | FAIL is never cleared. After any events, CONNECTED is set exactly when it was set before or a GOT_IP occurred. |
| `Firmware.RetryCountsReconnects` | src/main.c:52-56 | With no GOT_IP and no STA_START among the events, the number of connects issued equals the counter's increase, so it is at most WIFI_MAX_RETRY minus the starting count. |
| `Firmware.DisconnectsExhaustRetries` | src/main.c:53-59 | After n disconnects in a row, the counter is min(start + n, WIFI_MAX_RETRY) and CONNECTED is unchanged. FAIL is set exactly when it was already set or start + n exceeds the maximum. |
| `Firmware.WaitBits` | src/main.c:108-117 | The wait returns once either bit is set. The result is false exactly when FAIL is set, even if CONNECTED is also set. It is true exactly when CONNECTED is set and FAIL is not. |
| `Firmware.Doormon.WifiInitSta` | src/main.c:69-118 | Resets the counter and bits, then runs the handler on the events until a bit is set. The final state and the result equal `WaitFor` from the zero state, and the counter ends in range. |
| `Firmware.Consumed` | src/main.c:108-111 | The number of events the wait takes in before it returns: the wait on just those events ends in the same state with the same result, and if events remain, a bit is set. |
| `Firmware.SuccessNeedsAddress` | src/main.c:108-117 | The wait returns true only if a GOT_IP event arrived among the events it took in before returning. |
| `Firmware.FailureNeedsDisconnects` | src/main.c:53-58 | From a state with no bit set, the wait returns false only after more disconnects than the retries left, counted among the events it took in before returning. From the start that is WIFI_MAX_RETRY + 1 disconnects. |
| `Firmware.WaitGivesUp` | src/main.c:53-58 | From a state with no bit set, exactly (retries left + 1) disconnects end the wait with false, FAIL set and the counter at WIFI_MAX_RETRY. |
| `Firmware.InitStaOutcomes` | src/main.c:108-117 | After STA_START, six disconnects make `wifi_init_sta` return false. STA_START followed by GOT_IP makes it return true with the counter at 0. |
| `Firmware.Doormon.TriggerIsr` | src/main.c:120-124 | Runs only once the trigger input is armed. The interrupt sets the latch to true whatever it was, so a second interrupt changes nothing. |
| `Firmware.Doormon.StatusGet` | src/main.c:141-150 | Runs only once the server is started. `/status` changes nothing. Its body is the status body of the latch value read, and reading that body back gives the same value. |
| `Firmware.Doormon.ResetPost` | src/main.c:152-159 | `POST /reset` clears the latch whatever it was, so a second reset changes nothing. It answers `{"reset":true}`. |
| `Firmware.Doormon.ResetGet` | src/main.c:161-164 | `GET /reset` has the same effect and the same body as `POST /reset`. |
| `Firmware.Doormon.Serve` | src/main.c:166-200 | Requests arrive only once the server is started. `GET /status` answers the body for the latch value before the request and keeps the latch. `GET` or `POST /reset` answers the reset body and clears the latch. Any other request finds no handler and keeps the latch. |
| `Firmware.LatchIsLastWrite` | src/main.c:120-159 | After any sequence of interrupts, status reads and resets, the latch is true exactly when an interrupt came after the last reset, or it was true at the start and no reset came. |
| `Firmware.LatchIdempotent` | src/main.c:120-159 | Two interrupts have the same effect as one. Two resets have the same effect as one. A status read leaves the latch unchanged. |
| `Firmware.StatusBody` | src/main.c:144-145 | The status body starts with `{"triggered":` and ends with `}`. It always fits the 32-byte buffer with its NUL, so `snprintf` never truncates it. |
| `Firmware.ReadStatusBody` | src/main.c:145 | Only the exact status body for a value reads back as that value. |
| `Firmware.StatusBodyRoundTrip` | src/main.c:143-145 | The status body for t reads back as t, so the bodies for true and false differ. |
| `Firmware.Doormon.AppMain` | src/main.c:202-220 | The latch ends false. The flash is erased at most once, and only after NO_FREE_PAGES or NEW_VERSION_FOUND. A failed flash check aborts before Wi-Fi and leaves the Wi-Fi state untouched. Otherwise the Wi-Fi state and outcome are those of `WaitFor`. The trigger input is armed and the server started only when `wifi_init_sta` returned true; the server also requires `httpd_start` to succeed. |
| `Monitor.ResetCommandIsPaddedWord` | scripts/doormon_monitor.py:122 | A line requests a reset exactly when it is "r" or "reset" in any letter case, with only whitespace (as `str.isspace` defines it) around it. |
| `Monitor.Monitor.InputLine` | scripts/doormon_monitor.py:116-125 | One turn of `input_thread`. An empty read (end of input) stops the thread, and so does a read that raises: `EOFError` and `KeyboardInterrupt` are caught and end the loop, an undecodable line raises `UnicodeDecodeError`, which is not caught and ends the thread. A reset command sets the request. Any other line, and any read after the thread stopped, changes nothing. |
| `Monitor.ReadLinesOpen` | scripts/doormon_monitor.py:116-125 | After a batch of reads, `input_thread` still reads exactly when it did before and none of the reads was empty or raised. `prev_triggered` is unchanged. |
| `Monitor.ReadLinesRequests` | scripts/doormon_monitor.py:116-125 | After a batch of reads, a reset is pending exactly when one was pending already or a reset command arrived while the thread was still reading. |
| `Monitor.GetStatus` | scripts/doormon_monitor.py:74-87 | A failed request, or a document that is not an object, gives None. An object without "triggered" gives False. Otherwise the result is the member's value, with JSON null as None. A boolean result needs a real object. |
| `Monitor.PostReset` | scripts/doormon_monitor.py:90-98 | True exactly for a response with code 200; any exception gives False. |
| `Monitor.ResetStep` | scripts/doormon_monitor.py:132-138 | The request is always cleared. A POST is made, and one line printed, only if a request was pending. `prev_triggered` becomes False exactly when that POST answered 200. |
| `Monitor.PollStep` | scripts/doormon_monitor.py:140-148 | A failed poll prints the error and leaves the state unchanged. A successful poll sets `prev_triggered` to the value read. "Triggered!" is printed exactly when the previous value is False and the new one is True. |
| `Monitor.OneResetPerIteration` | scripts/doormon_monitor.py:132-134 | However many reset lines arrived since the last check, one loop iteration makes at most one reset attempt (exactly one if a reset was pending), and no request is left pending. |
| `Monitor.TriggeredExactlyOnRise` | scripts/doormon_monitor.py:134-147 | In one iteration, "Triggered!" is printed exactly when the value before the poll is False and the poll reads True. That value is False after a successful reset and `prev_triggered` otherwise. |
| `Monitor.NoReportWithoutFalse` | scripts/doormon_monitor.py:112-148 | Starting from a value other than False (None at start-up), with no successful reset and no poll reading False, "Triggered!" is never printed. So a True on the first poll is not reported. |
| `Monitor.ResetThenRiseReported` | scripts/doormon_monitor.py:134-147 | After a successful reset, a poll reading True is reported, whatever was seen before. |
| `Monitor.Monitor.constructor` | scripts/doormon_monitor.py:112-113 | The monitor starts with `prev_triggered` None, no reset requested and input open. |
| `Monitor.Monitor.PollOnce` | scripts/doormon_monitor.py:131-150 | One iteration of the loop: the new state and the printed lines are those of the reset step followed by the poll step, and no request is left pending. |
| `Monitor.Monitor.Run` | scripts/doormon_monitor.py:130-150 | The loop, with each tick's input lines read before that tick's check: the final state and all printed lines are those of `RunTicks`. |
| `Monitor.FirstIPv4` | scripts/doormon_monitor.py:51-58 | Finds the first address of four bytes, with every earlier one rejected, or none when no address has four bytes. |
| `Monitor.AcceptSpec` | scripts/doormon_monitor.py:41-58 | A service is accepted exactly when all three hold: its record exists, its name contains "doormon" in any case, and one of its candidate addresses has four bytes. The first such address is kept. The port is 80 when the advertised port is None or 0. |
| `Monitor.Listener.constructor` | scripts/doormon_monitor.py:38 | The listener starts with no result. |
| `Monitor.Listener.AddService` | scripts/doormon_monitor.py:41-58 | A recorded result is kept unchanged. Otherwise the result becomes what `Accept` gives for this service. |
| `Monitor.FirstAcceptedSpec` | scripts/doormon_monitor.py:41-58 | The search from the front finds the service that is accepted while every earlier one is refused, and nothing when all are refused. |
| `Monitor.DiscoveredIsFirstAccepted` | scripts/doormon_monitor.py:38-58 | The result after `add_service` has run on any sequence of services is the first accepted service. |
| `Monitor.LaterServicesIgnored` | scripts/doormon_monitor.py:42-43 | Once a device is recorded, later services leave the result unchanged. |
| `Monitor.ContainsInside` | scripts/doormon_monitor.py:48 | Python's `in` on strings finds a needle wherever it sits in the haystack. |
| `Monitor.ContainsAt` | scripts/doormon_monitor.py:48 | Where `in` holds, the needle occurs at some index of the haystack. |
| `Monitor.NameMatchesWord` | scripts/doormon_monitor.py:47-49 | Any name with a piece that spells "Doormon" (the instance name the script expects) in any mix of letter cases passes the name test. |
| `Monitor.NameMatchesOnlyWord` | scripts/doormon_monitor.py:47-49 | A name passes the name test only if some piece of it spells "Doormon" in some mix of letter cases. |
| `Monitor.NameMatchesIgnoresCase` | scripts/doormon_monitor.py:48 | Lower-casing a name first does not change the name test. |

## Left out

- ESP-IDF and FreeRTOS calls are not modelled: `esp_netif_*`, `esp_event_*`, `esp_wifi_*`, `xEventGroup*`, `gpio_*`, `httpd_*` and `nvs_flash_*`. Their outcomes are inputs or ghost flags. Every `ESP_ERROR_CHECK` inside `wifi_init_sta` and `trigger_gpio_init` is taken to succeed; only those in `app_main` are modelled. `start_httpd` tests only the result of `httpd_start` (the `httpdOk` input of `Firmware.Doormon.AppMain`); it ignores the results of `httpd_register_uri_handler`, and the model takes all three registrations to succeed.
- Concurrency is not modelled. The interrupt, the HTTP tasks, the event task, `input_thread` and `main` run as atomic steps in one sequence. In the monitor, each tick's input lines are read before that tick's reset check.
- Logging (`ESP_LOGx`, `print` to stderr), the credential `strncpy` and the IP-address formatting are left out. Python's printed lines are modelled only as `Message` values.
- Time is not modelled: the response-time measurement, the slow-response message, the one-second sleep, the discovery deadline and `discover_device`'s polling loop.
- The `discover_device` wrapper and `main`'s exit when nothing is found are left out. Only the listener's `result` is modelled.
- Networking and JSON decoding are not modelled: `urlopen`, `json.loads`, mDNS browsing and `get_service_info`. Their results are inputs (`StatusReply`, `ResetReply`, `Announcement`). The model does not link the bytes of the firmware's body to the document `json.loads` would produce.
- HTTP routing is reduced to exact matches on method and path. Query strings, `405` answers and `lru_purge_enable` are out.
- `Monitor.IsResetCommand` and `Monitor.NameMatches` lowercase ASCII letters only. Python's `str.lower` also maps other characters. None of those maps onto an ASCII letter of "r", "reset" or "doormon", so these tests give the same answers.
- `Firmware.Doormon.WifiInitSta` is given a finite list of events. When the list runs out before a bit is set, it returns `Blocked` instead of waiting forever.
- Integer widths are not modelled. `s_retry_num` is a C `int`, but it stays within 0..5 (`Firmware.RetryStaysInRange`), so it cannot overflow.
