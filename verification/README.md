# Aeternum node registry, in Dafny

A model of the licensing gate's node registry in `api/index.py`. Client
machines poll `/api/status?id=<hardware id>`. The service keeps a
module-level dictionary `NODOS_DB` from hardware id to a record
`{name, expiry, status}`, seeded with the master node. A handshake with a
missing or empty id gets `{"status": "ERROR", "message": "No ID provided"}`
and nothing changes. A never-seen id is registered on the spot as
`{"name": "Desconocido (<first six characters>)", "expiry": "PENDIENTE",
"status": "LOCKED"}`. Every non-empty id is answered with its stored record,
verbatim. Every other path renders the operator panel: one table row per
dictionary entry, in insertion order, with the status token shown in a
colour class (`OK` green, `WARNING` yellow, `LOCKED` blue, `PURGE` red,
anything else white).

Files:

- `wrappers.dfy`: `Option`, the shape of the optional `id` query parameter.
- `registry.dfy` (module `Registry`): records, responses, the pure meaning
  of one handshake (`Enrolled`, `Reply`), properties of runs of handshakes,
  and the class `NodeDb`, the mutable dictionary with its `Handshake` method.
  `NodeDb.order` is the dictionary's key order: Python dictionaries iterate
  in insertion order, and the panel lists rows in that order.
- `panel.dfy` (module `Panel`): the status-to-colour table and the row loop.

The invariant `NodeDb.Valid()` says that `order` lists every key exactly
once and that every stored status is one of the four known tokens. The
constructor establishes it and `Handshake` keeps it. As a consequence, the
panel never falls back to the default colour, and a handshake answers
`"ERROR"` exactly when the id is missing or empty.

The auto-registered name is `"Desconocido (" + id[:6] + ")"`, as at
api/index.py:26.
Strings are sequences of Unicode scalar values, which matches Python's
character slicing in `id[:6]`.

## Model

| member | source | states |
|---|---|---|
| `Registry.AnswerStatus` | api/index.py:20-31 | the `status` member of a handshake's answer is `"ERROR"` for a missing or empty id, and otherwise the status stored for that id after the handshake |
| `Registry.Present` | api/index.py:20 | the id counts as given if and only if it is present and non-empty; an absent id and the empty string are both refused |
| `Registry.Seed` | api/index.py:7-9 | the dictionary starts with the single key `NODO_MAESTRO`, holding name `Neo`, expiry `2099-12-31` and status `OK`, and every status in it is a known token |
| `Registry.NewRecord` | api/index.py:25-29 | a never-seen id is stored with status `LOCKED` (a known token), expiry `PENDIENTE`, and a name made of `"Desconocido ("`, the id's first six characters (or all of a shorter id) and `")"` |
| `Registry.Prefix` | api/index.py:26 | `id[:6]` is the prefix of the id of length min(6, len(id)), so ids shorter than six characters are taken whole |
| `Registry.DefaultName` | api/index.py:26 | the auto-registered name is `"Desconocido ("`, then a prefix of the id of at most six characters, then `")"` |
| `Registry.DefaultNameCollision` | api/index.py:26 | two ids get the same auto-registered name if and only if their first six characters agree |
| `Registry.Enrolled` | api/index.py:20-29 | a missing or empty id leaves the registry unchanged; otherwise the keys become the old keys plus the id, no existing key or record changes, a new id is mapped to `{Desconocido (...), PENDIENTE, LOCKED}`, and the size grows by exactly one only for a new id |
| `Registry.Reply` | api/index.py:18-31 | the answer is an ERROR object with message "No ID provided" exactly when the id is missing or empty; an id already present is answered with its stored record unchanged; a new id is answered with the fresh LOCKED record; in every non-error case the answer is the registry's entry for the id after the handshake |
| `Registry.HandshakeIdempotent` | api/index.py:24-31 | a second handshake with the same id leaves the registry as the first one left it and returns the same answer |
| `Registry.HandshakeKeepsKnown` | api/index.py:7-31 | a registry whose statuses are all known tokens keeps that property through a handshake, and the answer's status is "ERROR" if and only if the id is missing or empty |
| `Registry.RunClosedForm` | api/index.py:24-29 | after any sequence of handshakes, the keys are the initial keys plus every non-empty id seen; records that existed are unchanged; each newly seen id holds the record determined by that id alone |
| `Registry.RunOrderIndependent` | api/index.py:24-29 | two sequences of handshakes that observe the same set of non-empty ids leave identical records, whatever the order, the repetitions and the number of missing-id requests |
| `Registry.NodeDb.constructor` | api/index.py:7-9 | the initial registry holds exactly `NODO_MAESTRO` with `{Neo, 2099-12-31, OK}` |
| `Registry.NodeDb.Handshake` | api/index.py:16-31 | the stored map becomes `Enrolled(old map, id)`; a new id is appended to the key order; the answer is `Reply(old map, id)`; after a non-empty id, the id is a key and the answer is its stored record; the registry invariant is kept |
| `Panel.StatusColor` | api/index.py:48-53 | `OK`, `WARNING`, `LOCKED` and `PURGE` map to green, yellow, blue and red classes; the result is `text-white` if and only if the token is none of the four |
| `Panel.StatusColorDistinguishes` | api/index.py:48-53 | distinct known status tokens get distinct colour classes |
| `Panel.RowOf` | api/index.py:47-60 | a row shows the entry's id, name, expiry and status, and its colour class is the status-table lookup for its status, which is the default `text-white` if and only if the status is not a known token |
| `Panel.EnumerationSize` | api/index.py:47 | a duplicate-free key order that lists every key of the dictionary has one entry per key |
| `Panel.RowsCoverKeys` | api/index.py:47-55 | rows built one per entry of a duplicate-free key order show every key exactly once and never the default colour when all statuses are known |
| `Panel.Rows` | api/index.py:46-55 | one row per registry entry, in key order, each showing that entry's id, name, expiry, status and colour; every key has a row and no key has two; no row uses the default colour |

## Left out

- HTTP routing, `urlparse`/`parse_qs` query parsing, response codes and headers, and `json.dumps`/`wfile.write` (api/index.py:12-18, 33-37, 41-43, 124): transport I/O. The parsed `id` parameter is the input `Option<string>`; the JSON object is the `Response` value.
- The HTML page and f-string templating (api/index.py:55-66, 68-123): presentation. A row is modelled as the tuple of values it shows.
- The `EDITAR` and `PURGAR` buttons (api/index.py:62-63): they have no behaviour.
- Concurrent requests against the shared dictionary: the model is sequential, one request at a time.
- Operator status-change actions, a key-value store backend, a degraded-mode fallback table and value-encoding normalisation: none of them exists in `api/index.py`, so none is modelled.
- Registry.NodeDb.Handshake: the response is a copy of the stored record, while the source hands out a reference to the same dictionary object; nothing in the source mutates it afterwards, so the aliasing is not modelled.
