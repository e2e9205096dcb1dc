# plex_pinger core, modelled in Dafny

`plex_pinger` watches a Plex media server and posts "Plex is down!" to a
Discord channel when the server stops answering. This project models its two
pieces of logic and proves properties about them:

* **The Plex health probe** (`src/plex_checker.rs`), in `plex_url.dfy` and
  `plex_checker.dfy`. It turns the resolved IP into a `plex.direct` base URL
  and requests the base index. It then requests the library listing, walks its
  `Directory` elements to collect the ids of the configured libraries, and
  requests each of those libraries. The verdict is up only when every request
  is answered with status 200.
* **The debounced alert loop** (`src/main.rs`), in `ping_loop.dfy`. It tracks
  `last_plex_state_up` and `last_reminder_time`, and on a down verdict
  decides whether to alert now or stay quiet until the reminder interval has
  passed.

Supporting modules:
* `wrappers.dfy`: `Option` and `Result`.
* `decimal.dfy`: Rust's `{}` formatting of unsigned integers and `str::parse::<u64>`.
* `config.dfy`: the records of `src/config.rs`, as plain values.

Everything the program gets from outside is an input to the model:
* The DNS answer: a lookup error, or the resolved addresses as text.
* The Plex server: a function from request URL to reply. A reply is a
  transport error, or a status with a body. The body is unreadable, not XML,
  or the document's nodes in descendant order.
* The clock: whole seconds, read by the guard and, after an alert is posted, again.

The probe methods also return a ghost log of the URLs they requested. This
makes the short-circuit order something the contracts can state.

Two points where the code's behaviour is easy to misread:
* The base-index request and the library-listing request might be expected to
  go out together. In the code both are Rust futures. Rust futures do
  nothing until awaited, so the library check starts only after the base index
  has answered 200. `CheckPlexUp` models this, and its contract says that only
  the index URL is requested when the base check fails.
* The reminder guard compares the elapsed seconds with a strict `>`, and the
  reminder time is read from the clock after the message has been posted. So
  once an alert is recorded at `t`, nothing more is sent while the guard reads
  at most `t + threshold`. `QuietWithinReminder` states this.

## Model

| member | source | states |
|---|---|---|
| `Decimal.DecimalString` | src/plex_checker.rs:169-180 | the port and the library ids are written as a non-empty string of ASCII digits; a leading `0` occurs only in `"0"` itself |
| `Decimal.ParseU64OfDecimal` | src/plex_checker.rs:157 | `parse::<u64>` of the decimal text of any u64 gives that number back |
| `Decimal.DecimalStringInjective` | src/plex_checker.rs:75-81 | different ids are written as different texts |
| `Decimal.ParseU64Examples` | src/plex_checker.rs:157 | `parse::<u64>` refuses "", "+", "-1" and "1a", and accepts "+7" and "007" as 7 |
| `PlexUrl.ReplaceDots` | src/plex_checker.rs:195 | the result has the input's length, contains no `.`, has `-` wherever the input had `.`, and is unchanged elsewhere |
| `PlexUrl.GetIpFromDomain` | src/plex_checker.rs:183-196 | a failed lookup or an empty answer gives exit status 2; otherwise the result is the first address with every `.` turned into `-` |
| `PlexUrl.FormatBaseUrl` | src/plex_checker.rs:169-180 | the URL starts with `https://` iff `ssl`, starts with `http://` otherwise, and ends with `/` |
| `PlexUrl.GetBasePlexUrl` | src/plex_checker.rs:165-181 | fails with status 2 exactly when the lookup fails; the URL starts with `https://` iff `ssl`; splitting the URL gives back `ssl`, the dashed IP, the certificate UUID and the port |
| `PlexUrl.SplitBaseUrlRoundTrip` | src/plex_checker.rs:169-180 | for a dot-free IP, `<scheme><ip>.<uuid>.plex.direct:<port>/` splits back into exactly `ssl`, `ip`, `uuid` and `port` |
| `PlexUrl.SplitBaseUrlExact` | src/plex_checker.rs:169-180 | conversely, every URL that splits is exactly the base URL built from its parts, with a dot-free IP and the port in its one canonical decimal spelling, so building and splitting are inverse bijections |
| `PlexProbe.NewPlexChecker` | src/plex_checker.rs:13-19 | the checker exists iff the domain resolves; its base URL splits back into the configured scheme, UUID and port and the dashed first address; token and library list are the configured ones |
| `PlexProbe.RequestUrlsDistinct` | src/plex_checker.rs:73-81 | the index URL, the listing URL and every per-library URL differ; two ids give the same per-library URL only if they are equal |
| `PlexProbe.ParseKeys` | src/plex_checker.rs:157 | parsing all keys succeeds iff each key parses as a u64, and the result lists each key's value in order |
| `PlexProbe.CollectLibraryIds` | src/plex_checker.rs:140-162 | the walk over the nodes returns exactly the ids of the configured `Directory` elements, in document order; it is `Err` iff some `Directory` lacks `key` or `title` or a configured key is not a u64 |
| `PlexProbe.ListLibrariesIds` | src/plex_checker.rs:102-163 | exactly one request, to `<base>library/sections/?X-Plex-Token=<token>`; a transport error, a non-200 status, an unreadable body or bad XML is `Err`; otherwise the walk's result |
| `PlexProbe.IncompleteDirectoryAt` | src/plex_checker.rs:144-150 | one `Directory` without `key` or without `title` makes the listing `Err`, however well-formed the other elements are |
| `PlexProbe.UnparsableConfiguredKeyFails` | src/plex_checker.rs:153-157 | a configured `Directory` whose key is not a u64 makes the listing `Err` |
| `PlexProbe.UnconfiguredDirectoryIgnored` | src/plex_checker.rs:153-157 | removing a complete `Directory` with an unconfigured title changes nothing, even when its key does not parse |
| `PlexProbe.UnmatchedTitleIgnored` | src/plex_checker.rs:153-156 | configuring an extra title that no element carries changes nothing |
| `PlexProbe.CheckBaseIndexStatus` | src/plex_checker.rs:37-63 | one request, to `<base>?X-Plex-Token=<token>`; true iff it is answered with status exactly 200 |
| `PlexProbe.CheckEachLibrary` | src/plex_checker.rs:72-98 | true iff every per-library request is answered 200; the requests go out in id order and stop right after the first failure |
| `PlexProbe.CheckLibrariesEnumStatus` | src/plex_checker.rs:66-100 | true iff the listing is `Ok` and every listed library answers 200; an empty id list gives true; the listing is requested first, and the per-library requests are a prefix of the id order that ends at the first failure |
| `PlexProbe.CheckPlexUp` | src/plex_checker.rs:21-34 | up iff the base index answers 200 and the library check passes; if the base check fails, the answer is down and only the index URL was requested |
| `PlexProbe.IncompleteDirectoryMeansDown` | src/plex_checker.rs:143-150 | a 200 listing with a `Directory` lacking `key` or `title` makes the verdict down |
| `PlexProbe.ListingExample` | src/plex_checker.rs:143-158 | with "Movies" and "TV" configured, and Directory (1, "Movies") and Directory (2, "Music") listed, the ids are `[1]`; the verdict depends only on the index and on `.../sections/1/all` |
| `PingLoop.AlertText` | src/main.rs:39-49 | the text ends with "Plex is down!"; it is exactly that message iff no user is pinged; otherwise it is the mention, then ", ", then the message, and nothing else (its length is the sum of the three) |
| `PingLoop.NextState` | src/main.rs:30-62 | an up verdict resets the state to up with no reminder time; a down verdict leaves the state down; an alert sets the reminder time to the clock reading taken after posting, whatever the send's outcome; a down verdict without an alert changes nothing; the new state always satisfies the up-iff-no-reminder invariant |
| `PingLoop.Pinger.constructor` | src/main.rs:26-27 | starts up, with no reminder time, and the configured reminder interval; the invariant holds |
| `PingLoop.Pinger.Tick` | src/main.rs:30-62 | alerts exactly on a down verdict when the state was up, held no reminder time, or more than the reminder interval has passed since it (strict `>`); updates the two fields as `NextState`; re-establishes the invariant |
| `PingLoop.Monitor` | src/main.rs:29-67 | running the ticks in order on one pinger yields the alerts and the final state of `Run` |
| `PingLoop.RunConsistent` | src/main.rs:26-62 | the up-iff-no-reminder invariant holds after any number of iterations |
| `PingLoop.QuietWithinReminder` | src/main.rs:31-35 | after an alert at time `t`, down verdicts up to `t + reminder` send nothing and leave the state unchanged |
| `PingLoop.AlertAfterUp` | src/main.rs:31 | a down verdict right after an up verdict always alerts, whatever the reminder interval |
| `PingLoop.ReminderIsLastAlert` | src/main.rs:37-58 | from the start state, a held reminder time is the clock reading taken after the latest alert was posted; every iteration since that alert was down, and none of them alerted |
| `PingLoop.AlertRule` | src/main.rs:30-35 | over a run from the start state, a down verdict alerts iff it is the first iteration, or the previous verdict was up, or more than the reminder interval has passed since the reminder time held |

## Left out

- HTTP (`reqwest`): each request's outcome is the reply the server function gives for its URL. If two listed libraries have the same id, the server function gives both requests the same reply. A real server could answer them differently.
- Reading the response body and parsing XML (`roxmltree`): these are inputs. The body is `Unreadable`, `NotXml`, or the document's nodes in descendant order, each node with its local name and its optional `key` and `title`. Nodes that are not elements have an empty name. Namespaces are not modelled.
- DNS (`lookup_host`) is not modelled. The answer is an input. `std::process::exit(2)` becomes `Err(2)`.
- Rust's address formatting (`IpAddr::to_string`): the addresses arrive already as text.
- Async scheduling: the two futures of `check_plex_up` run one after the other. They are lazy, so this is the order the code imposes.
- Discord is not modelled: the client, the bot-token check with `exit(3)`, `send_message`, and how a user id is rendered as a mention. The mention is an opaque string. Whether posting succeeded only decides whether an error line is printed, so it is not an input of the model.
- `println!`/`eprintln!` diagnostics.
- `tokio::time::sleep` and the polling interval. `Instant` becomes whole seconds supplied to each tick. The infinite `loop` becomes one tick, and `Monitor` runs a finite sequence of ticks.
- `src/config.rs`: argument handling, file reading and JSON decoding are not modelled. Its records are mirrored as datatypes.
- The number of alerts in an outage of a given length is not stated as a formula. `QuietWithinReminder` and `AlertRule` state the rule the count follows from.
