# Platformer peer health tracking, in Dafny

A platformer node keeps a table of the other nodes it knows (its peers), one `Peer`
record per url. `Node.check_peer(url)` probes a peer and folds the probe result into the
record's health score. The score is an exponential moving average with smoothing factor
one half of the 0/1 probe outcomes. This project models that step and the `Peer` record
it updates, and proves what the step promises.

As written, the health validator hands back nothing, so every check fails (see
"## Findings"). Apart from `Models.ValidateHealthAsWritten` and
`Platformer.CheckPeerAsWritten`, every member models the program with `validate_health`
returning the `health` it checked.

- `wrappers.dfy`: `Option` and `Result`, used for values that may be `None` and for
  operations that may raise.
- `models.dfy` (module `Models`): the `Peer` record, its column defaults, the validator
  that guards every assignment to `health`, and `ValidStore`. `ValidStore` is the
  invariant of the peer table: each record sits under its own url and has health in
  [0.0, 1.0].
- `health.dfy` (module `Health`): the average `Ema`, its fold over a sequence of
  outcomes, closed forms after `n` successes or `n` failures, and convergence bounds.
- `platformer.dfy` (module `Platformer`): the class `Node`, whose field `peers` is the
  table as a `map` from url to `Peer`. Its method `CheckPeer` updates that field in place.
  `CheckedTable` is the function that specifies `CheckPeer`, and `Replay` applies it to
  any sequence of checks.

The HTTP HEAD probe becomes the parameter `probe: Option<bool>`. `Some(ok)` means the peer
replied, and `ok` says whether the status was 200. `None` means the request raised. Where a
member takes a plain `probeOk` or a sequence of outcomes, `false` means a reply whose status
was not 200. The wall clock becomes the integer parameter `now`. Health is a
Dafny `real`.

## Model

| member | source | states |
|---|---|---|
| Models.ValidateHealth | src/platformer/models.py:28-30 | an assigned health is accepted exactly when it lies in [0.0, 1.0], and then the value assigned is that health; otherwise the assertion error is raised |
| Models.ValidateHealthAsWritten | src/platformer/models.py:28-30 | as written, the validator accepts exactly the healths in [0.0, 1.0], but the value it hands back for assignment is always `None` |
| Models.SetHealth | src/platformer/models.py:28-30 | assigning a health succeeds exactly when it is in bounds; the record then satisfies the bound, carries the new health, and keeps its url, active flag and timestamp |
| Models.NewPeer | src/platformer/models.py:21-30 | building a record with explicit fields succeeds exactly when the health is in bounds, and yields that record, which satisfies the bound |
| Models.DefaultPeer | src/platformer/models.py:24-26 | a record built from its url alone is active with health 1.0, and that default satisfies the health bound |
| Models.UrlIsUniqueKey | src/platformer/models.py:23 | in a valid table, two stored records with the same url are the same record |
| Health.Ema | src/platformer/platformer.py:68 | a success halves the distance to 1.0 and a failure (a reply other than 200) halves the health; from a health in [0.0, 1.0] the result stays in bounds, a success never lowers it and a failure never raises it |
| Health.HealthAfter | src/platformer/platformer.py:68 | for any sequence of probe outcomes, a health that starts in [0.0, 1.0] stays in [0.0, 1.0] |
| Health.HealthAfterConcat | src/platformer/platformer.py:68 | folding outcomes in two batches gives the same health as folding them in one |
| Health.SuccessesClosedForm | src/platformer/platformer.py:68 | after `n` successes the health is `1 - (1 - h) / 2^n` |
| Health.FailuresClosedForm | src/platformer/platformer.py:68 | after `n` failures the health is `h / 2^n` |
| Health.SustainedSuccessConverges | src/platformer/platformer.py:68 | after `n` successes from a valid health, the health lies in [1 - 1/2^n, 1.0] |
| Health.SustainedFailureConverges | src/platformer/platformer.py:68 | after `n` failures from a valid health, the health lies in [0.0, 1/2^n] |
| Health.FreshPeerTwoSuccesses | src/platformer/platformer.py:61-68 | from the fresh record's health 0.0, one success gives 0.5 and two give 0.75 |
| Platformer.GetOrCreate | src/platformer/platformer.py:58-64 | a known url gets its stored record; an unknown url gets a fresh inactive record with health 0.0; in a valid table the record found carries the url and satisfies the bound |
| Platformer.CheckedTable | src/platformer/platformer.py:58-72 | on a valid table: the keys become the old keys plus `url`, so the size grows by one exactly for a new url; every other record is unchanged; the record is active iff the probe replied 200, is stamped `now` and has health `(old + (1 if active else 0)) / 2` of the stored health (0.0 for a new url, giving 0.5 or 0.0); the table invariant is preserved |
| Platformer.Replay | src/platformer/platformer.py:55-74 | for any sequence of answered checks on a valid table, the table invariant is preserved, and the keys are the old keys plus the probed urls, each once |
| Platformer.ReplayOneUrl | src/platformer/platformer.py:58-72 | repeated checks of one url leave its health equal to the average folded over its outcomes from the stored health, or from 0.0 for an unknown url; `active` and `last_checked` come from the last probe |
| Platformer.TwoChecksOfNewUrl | src/platformer/platformer.py:58-72 | two successful checks of a new url add one record with health 0.5 and then 0.75, and the second check does not grow the table |
| Platformer.CheckPeerAsWritten | src/platformer/platformer.py:58-72 | as written, a check on a valid table always fails: a probe that raises propagates; otherwise a new url fails on `None` arithmetic, and a known url fails on committing a NULL health |
| Platformer.Node.CheckPeer | src/platformer/platformer.py:55-74 | when the probe replies, the table becomes `CheckedTable(old table, url, ok, now)` and the result is `Ok(ok)`, equal to the record's new `active`; when the probe raises, the error is returned and the table is unchanged; the invariant is kept either way |
| Platformer.CheckTwice | src/platformer/platformer.py:55-74 | two checks of a new url on a node, both answered 200, add exactly that key, leave every other record unchanged, and leave the record active, with health 0.75 and the second timestamp |

## Left out

- The Flask application, the database set-up and the generated REST API
  (src/platformer/platformer.py:32-52). The store is the `peers` map of `Node`. `Node`'s
  constructor takes an already persisted valid table.
- `requests.head(url)` (src/platformer/platformer.py:66) is network I/O. Its outcome is the
  `probe` parameter. `None` stands for any exception it raises: a connection error, a
  malformed url, and so on. `Node.CheckPeer` then creates or changes no record, so an
  unreachable peer's health is never halved. Only a reply other than 200 counts as a
  failed probe in `Ema`, `HealthAfter` and `SustainedFailureConverges`.
- The HEAD request has no timeout and may block indefinitely. Blocking is not modelled.
- `datetime.utcnow()` (src/platformer/platformer.py:69) reads the clock. It is the `now`
  parameter, an integer timestamp.
- The `last_checked` column default is one timestamp fixed when models.py is loaded
  (src/platformer/models.py:26). It is the constant `ModuleLoadTime`. `check_peer`
  overwrites it before the record is stored.
- The unicode coercion of `url` (src/platformer/platformer.py:56) is a Python 2
  string-type detail. Urls are Dafny strings.
- The `id` primary-key column: the url is the key of the map.
- The `Memo` and `ReliabilityMetadata` records (src/platformer/models.py:7-18): no
  logic, and nothing in the peer step uses them.
- The command-line entry points, node.py, tests.py and setup.py: start-up, HTTP
  serving and packaging.
- Self-identification, secret exchange and peer-list import have no code in
  platformer.py or models.py, so they are not modelled.
- The url column is only declared non-nullable (src/platformer/models.py:23), so empty
  urls are allowed.
- Health is a `real`. IEEE double rounding is not modelled. The bound also holds for
  doubles, because halving `h + 1.0` or `h` with `h` in [0, 1] rounds monotonically.
- Database transactions and concurrent checks of the same url: each `CheckPeer` is one
  atomic update of the map.

## Findings

| source | as written | input that shows it | evidently intended | confidence | as-written member | corrected member |
|---|---|---|---|---|---|---|
| src/platformer/models.py:28-30 | the `@validates('health')` method asserts the bound but returns nothing, so the ORM assigns `None` to `health` on every assignment, constructor arguments included | `check_peer` on a url not in the table: the fresh record's health is `None`, and `None + 0.0` raises at src/platformer/platformer.py:68; on a url already in the table: the new health becomes `None`, and the commit writes NULL to a non-nullable column | the validator returns `health`, so the assigned value is stored | high (not executed) | Platformer.CheckPeerAsWritten | Models.ValidateHealth |
