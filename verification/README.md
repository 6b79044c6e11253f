# gee-cache singleflight and gee-orm schema, modelled in Dafny

Two small Go components are modelled here.

**SingleFlight** (`singleflight.dfy`) models the duplicate-suppression group of
gee-cache. `Group.Do(key, fn)` keeps a map from key to the in-flight `call`.
A caller that finds its key registered waits for that call and returns the
call's `val` and `err`. A caller that finds the key absent registers a fresh
call, runs `fn` once, stores the result and marks the call done, and only
then, in a separate lock section, deletes the key. `Do` has two lock
sections (lines 24-36 and 41-43). Between them, with the mutex released, the
leader runs `fn`, stores its result and calls `wg.Done`. Each of the three
parts is one atomic step of a class `Group`:

- `Begin` is lines 24-36. It returns `Joined(c)` or `Leader(c)`.
- `Complete` is lines 38-39. It stores `fn`'s result and sets `done`, which stands in for `wg.Done`.
- `Remove` is lines 41-43.

`Call.Wait` is `wg.Wait()` followed by reading the result. It may be taken
once the call is done. Ghost maps count, per key, the calls created (`waves`)
and the runs of `fn` (`runs`). The invariant `Group.Valid` ties both counts
to the registry. Client methods string the steps together into the
scenarios the component is meant for: one coalesced wave, a late arrival,
and two waves in a row.

Storing the result and signalling completion (lines 38-39) happen outside
the mutex. They come before the separate lock section that deletes the key
(lines 41-43). So a completed call stays registered for a moment, and a
caller arriving then joins it (`LateArrivalJoins`). A panicking `fn` is not
recovered. The model does the same.

**OrmSchema** (`schema.dfy`) models gee-orm's struct-to-table mapping.
Reflection is replaced by explicit input:

- A struct type is its name plus its field descriptors: name, Go type, anonymous flag, optional `geeorm` tag.
- An object is its struct type, the table name its `TableName()` method gives (if it has one), and its field values by name.
- The dialect's `DataTypeOf` is a function parameter.

`Parse` is the Go loop. It keeps the non-anonymous exported fields and fills
`Fields`, `FieldNames` and `fieldMap` in lockstep. It is proved equal to the
function `ParseSpec`, and the lemmas state what `ParseSpec` promises.

`wrappers.dfy` holds the `Option` type that both modules use.

## Model

| member | source | states |
|---|---|---|
| `SingleFlight.Call.constructor` | gee-cache/singleflight/singleflight.go:33-34 | a new call is not done; it records its key and wave number |
| `SingleFlight.Call.Wait` | gee-cache/singleflight/singleflight.go:30-31 | once the call is done, the waiter returns exactly the `val` and `err` stored in it |
| `SingleFlight.Group.constructor` | gee-cache/singleflight/singleflight.go:14-17 | the zero group has a nil (empty) map and has run nothing for any key |
| `SingleFlight.Group.Begin` | gee-cache/singleflight/singleflight.go:24-36 | the map is non-nil afterwards; a registered key, done or not, is joined with the map, counts and runs unchanged and no run of `fn`; an absent key gets a fresh, not-done call inserted under it, other keys untouched, and its wave count goes up by one |
| `SingleFlight.Group.Complete` | gee-cache/singleflight/singleflight.go:38-39 | `fn` runs exactly once (its run count goes up by one); the call holds exactly `fn`'s value and error and is done; the call stays registered and the map is unchanged |
| `SingleFlight.Group.Remove` | gee-cache/singleflight/singleflight.go:41-43 | the key is absent afterwards and every other key keeps its call; the map stays non-nil once made |
| `SingleFlight.Group.Do` | gee-cache/singleflight/singleflight.go:23-46 | a joiner returns the stored result and `fn` does not run; a leader returns exactly `fn`'s value and error (errors pass through, no retry), `fn` runs once, and the key is absent again afterwards |
| `SingleFlight.JoinInFlight` | gee-cache/singleflight/singleflight.go:24-31 | any number of callers arriving while the key's call is in flight all join that same call, and the map, runs and waves are left as they were |
| `SingleFlight.WaitAll` | gee-cache/singleflight/singleflight.go:30-31 | once their calls are done, the waiters get one result each, exactly the value and error stored in their own call |
| `SingleFlight.CoalescedWave` | gee-cache/singleflight/singleflight.go:28-45 | with any number of joiners arriving while the leader runs, `fn` runs once and every caller gets the leader's value and error |
| `SingleFlight.LateArrivalJoins` | gee-cache/singleflight/singleflight.go:39-42 | a caller arriving between `wg.Done` and `delete` joins the completed call and gets its result without running `fn` |
| `SingleFlight.NoCachingAcrossWaves` | gee-cache/singleflight/singleflight.go:28-42 | a `Do` after the previous one returned finds no entry, runs `fn` again (runs and waves go up by two in all) and returns the new result |
| `OrmSchema.Parse` | gee-orm/schema/schema.go:53-86 | the schema equals `ParseSpec` and is consistent; its model is `dest`; its name is `TableName()` when the type implements it, the struct's name otherwise |
| `OrmSchema.Schema.RecordValues` | gee-orm/schema/schema.go:43-50 | one value per column, in column order: element i is `dest`'s value of the field named by column i |
| `OrmSchema.KeptIndicesSound` | gee-orm/schema/schema.go:69-71 | the kept positions lie within the fields, point at non-anonymous exported fields, and strictly increase (declaration order is kept) |
| `OrmSchema.KeptIndicesComplete` | gee-orm/schema/schema.go:69-71 | every non-anonymous exported field's position is among the kept ones |
| `OrmSchema.ColumnsAreKeptFields` | gee-orm/schema/schema.go:69-80 | there is one column per kept position, and column k is the column of the field at kept position k |
| `OrmSchema.ParseColumnAt` | gee-orm/schema/schema.go:72-79 | each column carries its field's name, the dialect's type for its Go type (so equal Go types give equal column types), and the `geeorm` tag, or "" when there is no tag |
| `OrmSchema.ColumnsMembership` | gee-orm/schema/schema.go:71-80 | a value is a column if and only if it is the column of some field that is not anonymous and is exported |
| `OrmSchema.IndexByNameLastWins` | gee-orm/schema/schema.go:80-82 | the map's keys are exactly the column names, and each name maps to a column of that name, namely the last one to carry it |
| `OrmSchema.ParseConsistent` | gee-orm/schema/schema.go:80-82 | `Fields` and `FieldNames` have equal length with `FieldNames[i] == Fields[i].Name`, and `fieldMap` holds exactly those names, each mapped to a column of that name |
| `OrmSchema.ColumnNames` | gee-orm/schema/schema.go:69-81 | a name is in `FieldNames` if and only if some non-anonymous exported field carries it |
| `OrmSchema.Schema.GetField` | gee-orm/schema/schema.go:34-36 | the lookup of `fieldMap` by name, None for a missing name; its behaviour on a parsed schema is stated by `GetFieldFindsKept` and `GetFieldReturnsItsColumn` |
| `OrmSchema.GetFieldFindsKept` | gee-orm/schema/schema.go:34-36 | `GetField(name)` finds a column if and only if some kept field has that name, otherwise nil; what it finds is a column of that name |
| `OrmSchema.GetFieldReturnsItsColumn` | gee-orm/schema/schema.go:34-36 | when no two kept fields share a name (always so in Go, which makes non-blank field names unique, while blank `_` fields are never kept), `GetField` of a kept field's name returns exactly that field's column |

## Left out

- Concurrency is not modelled: `sync.Mutex`, `sync.WaitGroup` blocking, scheduling and happens-before ordering. Each lock section is one atomic step. The unlocked lines 38-39 are one atomic step too: only the leader writes the call, and no joiner reads `val` or `err` before `wg.Done`. So no interleaving inside them is observable. A wait is a read that is allowed once `done` is set. Deadlock, liveness and the isolation of distinct keys in time are not sequential properties.
- The body of `fn` is not modelled. What it returns is a parameter of `Complete` and `Do`. `interface{}` and `error` become the type parameters `V` and `E`.
- No panic recovery around `fn` is modelled, because the code has none.
- SingleFlight.Group.Do: requires the key to be absent or its call done. A caller that would block in `wg.Wait` is modelled only through the separate steps (`Begin`, then `Call.Wait` once the leader's `Complete` has run), as in `CoalescedWave`.
- SingleFlight.Group.Complete: requires the caller to be the leader of the call registered under the key, with the call not yet done. Only the leader reaches lines 38-39, and it does so exactly once.
- SingleFlight.Group.Remove: requires that the key's call, if any, is done. Only the leader reaches line 42, and only after line 39.
- Go reflection is replaced by explicit descriptors and a map of field values: `reflect.Indirect`, `ValueOf`, `Type`, `Field`, `New`, `Tag.Lookup` and `FieldByName`. Lookup of promoted fields through embedded structs is not modelled, because schema columns are always top-level fields.
- OrmSchema.Schema.RecordValues: requires `dest` to have every column's field. Go's reflection panics on a missing field, and the model does not model that panic.
- OrmSchema.Parse: `ast.IsExported` is narrowed to "first character is an ASCII upper-case letter". Unicode upper-case letters are not modelled.
- `dialect.DataTypeOf` is not part of this model. It is an arbitrary function from Go types to column types, passed to `Parse`. A Go type is represented by a string that identifies it.
- `*Field` pointers are modelled as values. `Fields[i]` and `fieldMap[name]` share a pointer in Go. Nothing in this code mutates a field after `Parse`, so the identity is not observable here.
