# mongo-basemodel in Dafny

A model of `BaseCollection`, the lifecycle-metadata record that domain
entities embed to get a MongoDB document identifier and audit timestamps.
The record holds an `ObjectID`, a mandatory creation time and two optional
times: the last update and the soft delete. Its three mutators stamp it at
the points where a caller inserts, updates or soft-deletes a document. Its
five accessors read it back, and a record counts as deleted exactly when it
carries a delete time.

The Go methods read the wall clock and the driver's identifier generator
themselves. Here both are inputs. `SetInsertMeta(b, now, newId)`,
`SetUpdateMeta(b, now)` and `SetDeleteMeta(b, now)` are pure functions from
the old record to the new one. An accessor is a function of the record, so
reading changes no state by construction.

Files:

- `wrappers.dfy`: `Option`, the present-or-absent wrapper used for the two
  optional times.
- `hex.dfy`: base 16 encoding as in section 8 of RFC 4648, with the
  lower-case alphabet that Go's `encoding/hex` writes. The decoder accepts
  both letter cases, as Go's decoder does.
- `object_id.dfy`: the 12-byte identifier, its zero value, its 24-digit
  rendering (`Hex()` in the driver) and the parse back (`ObjectIDFromHex`).
- `base_model.dfy`: the record, its three mutators and its five accessors.
- `lifecycle.dfy`: sequences of mutator calls, with their clock readings
  made explicit, and the invariants such sequences keep.

`IsDeleted`, `GetCreatedAt` and `GetUpdatedAt` have no contract of their own:
each returns a stored field or its presence. The mutator contracts below state
what they read after each call, and `BaseModel.ZeroState` states what they read
before any call.

Nothing in basemodel.go keeps an optional time from moving backwards:
`SetUpdateMeta` and `SetDeleteMeta` store whatever `time.Now` returns, and the
model does the same. "Never earlier" is proved only
for a clock that does not go backwards (`Lifecycle.UpdatedAtNonDecreasing`). "Strictly later", which
the tests rely on, is proved only for a strictly increasing clock
(`Lifecycle.UpdateStrictlyAfter`).

## Model

| member | source | states |
|---|---|---|
| `Hex.Encode` | basemodel.go:45-47 | Each octet becomes two lower-case digits, high nibble first, so the output is twice as long as the input. |
| `Hex.DigitValue` | examples/mongodb/main.go:47 | A character has a value exactly when it is a digit or a letter a-f in either case. The value is a nibble, a lower-case digit is the encoder's digit for its value, and an upper-case letter A-F has the value of its lower-case counterpart. |
| `Hex.Decode` | examples/mongodb/main.go:47-50 | A string decodes exactly when its length is even and every character is a hex digit. Octet i is then the one spelled by digits 2i and 2i+1. |
| `Hex.DecodeEncode` | basemodel.go:45-47 | Decoding any encoding gives back the original octets. |
| `Hex.EncodeInjective` | basemodel.go:45-47 | Two octet strings have the same encoding if and only if they are equal. |
| `Hex.EncodeDecode` | examples/mongodb/main.go:47 | Every even-length lower-case hex string decodes, and encoding the result gives back the same string. |
| `ObjectId.ToHex` | basemodel.go:45-47 | The identifier renders as exactly 24 lower-case hex digits, and digits 2i and 2i+1 encode octet i. |
| `ObjectId.FromHex` | examples/mongodb/main.go:47-50 | A parse succeeds exactly on a 24-character string of hex digits, and octet i is the one spelled by digits 2i and 2i+1. |
| `ObjectId.FromHexToHex` | examples/mongodb/main.go:47-50 | Parsing an identifier's rendering gives back that identifier. |
| `ObjectId.ToHexFromHex` | examples/mongodb/main.go:47 | A lower-case string that parses is the rendering of the identifier it parses to. |
| `ObjectId.ToHexInjective` | basemodel.go:45-47 | Two identifiers have the same rendering if and only if they are equal. |
| `ObjectId.ToHexIsNilHexIff` | basemodel_test.go:164-168 | The rendering is "000000000000000000000000" exactly when the identifier is the zero identifier. |
| `BaseModel.GetID` | basemodel.go:45-47 | The ID string has 24 characters, and it is the all-zero string exactly when the record's identifier is zero. |
| `BaseModel.IsDeleted` | basemodel.go:40-42 | No contract: true exactly when the delete time is present. |
| `BaseModel.GetCreatedAt` | basemodel.go:50-52 | No contract: returns the stored creation time. |
| `BaseModel.GetUpdatedAt` | basemodel.go:55-57 | No contract: returns the stored update time, present or absent. |
| `BaseModel.GetDeletedAt` | basemodel.go:59-62 | The delete time is present exactly when `IsDeleted` holds. |
| `BaseModel.SetInsertMeta` | basemodel.go:19-23 | The record takes the new identifier and `now` as its creation time. Both optional times and the deleted flag read as before. |
| `BaseModel.SetUpdateMeta` | basemodel.go:27-30 | The update time reads `now`. Identifier, creation time, delete time and deleted flag are unchanged. |
| `BaseModel.SetDeleteMeta` | basemodel.go:34-37 | The record reads as deleted with delete time `now`. Identifier, creation time and update time are unchanged. |
| `BaseModel.ZeroState` | basemodel.go:10-15 | The zero record reads as the all-zero ID, the zero creation time, no update or delete time, and not deleted. |
| `BaseModel.InsertOverwrites` | basemodel.go:19-23 | A second insert wins: two inserts equal the second alone. Two inserts with different identifiers yield different ID strings. |
| `BaseModel.RepeatRefreshes` | basemodel.go:27-37 | Repeating an update or a delete only replaces that call's own time. |
| `BaseModel.MutatorsCommute` | basemodel.go:19-37 | Any two different mutators give the same record in either order, because they write disjoint fields. |
| `BaseModel.GetIDRoundTrip` | examples/mongodb/main.go:46-47 | The driver's parser turns the record's ID string back into its identifier. |
| `BaseModel.InsertedIDRendering` | basemodel_test.go:170-191 | After insert the ID string is the new identifier's rendering. It is the all-zero string exactly when that identifier is zero. |
| `Lifecycle.Apply` | basemodel.go:19-42 | After one call the record is deleted if and only if it was before or the call was a delete. A present update time stays present. |
| `Lifecycle.ApplyWritesOnly` | basemodel.go:19-37 | Each call leaves every field outside its own write set equal to before. Each field it writes holds the call's input. |
| `Lifecycle.Run` | basemodel.go:34-42 | After any prefix of calls the record is deleted if and only if it was at the start or a delete ran in that prefix. A present update time is never cleared. |
| `Lifecycle.LastWrite` | basemodel.go:19-37 | Finds the last call among the first k that writes a given field, and no later call among them writes it. Returns none when no call among them does. |
| `Lifecycle.RunOptionalTimes` | basemodel.go:27-37 | After any prefix, the update time is the reading of the last update in it, and the delete time is the reading of the last delete. A time no call wrote keeps its starting value. The update time is present exactly when it was at the start or an update ran. |
| `Lifecycle.IdentityKept` | basemodel_test.go:299-305 | In a lifecycle (one insert, then only updates and deletes), every later step keeps the insert's identifier and creation time. |
| `Lifecycle.StampsOrdered` | basemodel_test.go:84-87 | Take a lifecycle from an unstamped record under a clock that never goes backwards. Every present time lies between the creation time and the latest reading. |
| `Lifecycle.UpdatedAtNonDecreasing` | basemodel_test.go:287-293 | Under such a clock, once the update time is present it stays present, and it never moves backwards. |
| `Lifecycle.UpdateStrictlyAfter` | basemodel_test.go:307-310 | Under a strictly increasing clock, each update's time is after the creation time and after every earlier update's time. |
| `Lifecycle.StaysDeleted` | basemodel.go:34-42 | There is no undelete: once deleted, the record stays deleted after any further calls. |
| `Lifecycle.FullLifecycle` | basemodel_test.go:274-321 | The test's insert, update, update, delete scenario. Identifier and creation time survive, the second update is later than the first, and the record is deleted only after the delete. |

## Left out

- Identifier generation (`primitive.NewObjectID`, basemodel.go:21): it is driver code built from time, a process discriminator and a counter. The new identifier is an input, and nothing assumes it is non-zero or unique.
- The wall clock (`time.Now`, basemodel.go:20, 28, 35): each reading is an input. Go's `time.Time` is reduced to an integer instant, with no monotonic reading, location or wall/monotonic split. So the tests' "within one second of now" checks have nothing to refer to.
- Struct tags and the omit-when-absent JSON/BSON serialisation (basemodel.go:11-14): reflection-driven library behaviour.
- Pointer identity of the returned optional times (basemodel_test.go:238, 269): modelled as equality of `Option` values.
- Hex.Decode: Go's decoder tells an odd length apart from an invalid character. Both are `None` here, and `ObjectIDFromHex`'s error values are not modelled.
- The repository layer in examples/mongodb/main.go: network I/O, BSON filters and cursors. Its `SoftDelete` writes `deleted_at` directly instead of calling `SetDeleteMeta`.
- examples/basic/main.go: it only prints values.
- Concurrency and the benchmarks: the record is not thread-safe and has no internal concurrency.
