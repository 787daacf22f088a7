# quick-xml map accessor, modelled in Dafny

This project models the map accessor of quick-xml's serde bridge (`src/de/map.rs`).
When one start tag is decoded as a struct, the accessor answers the framework's
"next key" and "next value" requests. It decides whether the next field comes
from an attribute of the tag, from the inner text, or from a nested child
element.

The accessor keeps two pieces of state:

- a saved offset into the tag's attribute span. The cursor is rebuilt at that
  offset on every request instead of being held live.
- a one-shot slot (`MapValue`). It is `Empty`, `Attribute(value)`, `Nested` or
  `InnerValue`.

Files:

- `results.dfy`: `Option` and `Result`.
- `events.dfy`: bytes, start tags, the resumable attribute cursor (`Attributes`),
  the event kinds, and the local-name rule.
- `de_map.dfy`: the slot, the keys and values handed to seeds, the pure step
  functions (`NextAttrStep`, `PeekDecision`, `KeyStep`, `ValueStep`) and the class
  `MapAccess`. Each method of `MapAccess` is proved to change its fields exactly
  as the matching step function says.
- `map_protocol.dfy`: properties of request sequences. It covers resuming the
  cursor and the "one value per key" rule.

Seeds are modelled as identities. A key request returns the input the key seed
would read: `KeyBytes(bytes, unescape)` for an escaping deserializer, or
`KeyStr("$value")` for the reserved inner-value name. A value request returns
`ValueBytes(bytes, unescape)` for an attribute value, or `Delegate` when the
parent deserializer decodes the value.

## Model

| member | source | states |
|---|---|---|
| `DeMap.Init` | src/de/map.rs:33-40 | A new accessor has an empty slot, and its saved offset is the tag's initial attribute offset. |
| `DeMap.MapAccess.constructor` | src/de/map.rs:33-40 | Builds the accessor in the state `Init(start)`, keeping the tag. |
| `Events.BytesStart.Attributes` | src/de/map.rs:44 | A fresh cursor over the tag's own attribute span, placed at the span's initial offset. |
| `Events.Attributes.Next` | src/de/map.rs:46 | Advancing once keeps the span. It yields nothing exactly at the end of the span, and the offset then stays put. Otherwise it yields the pair at the offset and moves one entry on, or the fault of a malformed entry. |
| `DeMap.NextAttrStep` | src/de/map.rs:43-49 | Resuming at offset `pos`: gives `Ok(None)` exactly when the span is exhausted, and then the offset stays put. A pair comes from the entry at `pos`, and the offset to save is `pos + 1`. A fault comes from a malformed entry at `pos`; it is propagated and the offset is not advanced. |
| `DeMap.MapAccess.NextAttr` | src/de/map.rs:43-49 | Rebuilds the cursor at the saved offset, advances it once and stores the offset it reached (not on a fault), exactly as `NextAttrStep`. It keeps the offset within the span. |
| `Events.LocalName` | src/de/map.rs:94 | The child's key is its name with everything up to and including the first colon removed. A name without a colon is kept whole. |
| `DeMap.PeekDecision` | src/de/map.rs:66-100 | With attributes exhausted, a key comes only from a peeked `Text` or `Start`. `Text`, or `Start` when the struct has a `$value` field, sets the slot to `InnerValue` with key `$value`. `Start` without one sets `Nested`, with the child's local name as key and unescaping off. Anything else, including end of input, ends the map. |
| `DeMap.KeyStep` | src/de/map.rs:55-102 | Attributes come first. A well-formed one yields its key with unescaping off, sets the slot to `Attribute(value)` and advances the offset, whatever was peeked. A malformed one, or a peek error once attributes are exhausted, is an error that leaves the state unchanged. Only a produced key writes the slot, and never with `Empty`. |
| `DeMap.MapAccess.NextKeySeed` | src/de/map.rs:55-102 | Changes the offset and the slot, and returns the key, exactly as `KeyStep`. It keeps the offset within the span. |
| `DeMap.ValueStep` | src/de/map.rs:104-117 | A value request always leaves the slot `Empty` and the offset unchanged. It fails, with `EndOfAttributes`, exactly when the slot was `Empty`. An attribute value is handed on with unescaping on. `Nested` and `InnerValue` delegate to the parent deserializer. |
| `DeMap.MapAccess.NextValueSeed` | src/de/map.rs:104-117 | Takes the slot, resets it to `Empty`, and returns the value input or error, exactly as `ValueStep`. |
| `MapProtocol.DrainYieldsSuffix` | src/de/map.rs:43-48 | Calling `NextAttrStep` repeatedly from a saved offset over well-formed entries yields exactly the remaining pairs, in document order. |
| `MapProtocol.DrainStopsAtFault` | src/de/map.rs:46 | When resuming reaches a malformed entry, the drive ends with that entry's fault. |
| `MapProtocol.ResumeIsSuffixOfFullScan` | src/de/map.rs:22-27 | A scan from the tag's initial offset yields every pair. A scan from any saved offset yields exactly the tail of that list, so nothing is rescanned. |
| `MapProtocol.SlotPendingIff` | src/de/map.rs:55-117 | After any sequence of requests, the slot is non-empty exactly when some key request produced a key and no value request has come since. |
| `MapProtocol.ValueSucceedsIffKeyPending` | src/de/map.rs:108-115 | In any request sequence, a value request succeeds exactly when a key is pending in that sense. Otherwise it fails with `EndOfAttributes`. |
| `MapProtocol.SecondValueFails` | src/de/map.rs:108-115 | Two value requests in a row: the second always fails with `EndOfAttributes`. |
| `MapProtocol.FirstValueFails` | src/de/map.rs:33-40 | A value request on a fresh accessor, before any key, fails with `EndOfAttributes`. |
| `MapProtocol.PeekIgnoredWhileAttributes` | src/de/map.rs:61-65 | While an attribute remains, the outcome of a key request does not depend on the peeked event (even a peek error) or on the `$value` flag. |
| `MapProtocol.Reach` | src/de/map.rs:43-48 | After any sequence of requests to a fresh accessor, the saved offset is within the attribute span, which is what `KeyThenValue` assumes. |
| `MapProtocol.KeyThenValue` | src/de/map.rs:61-114 | After a key request that produced a key, the next value request succeeds and empties the slot. For an attribute key it yields that attribute's raw value with unescaping on. For a key from the event stream it delegates to the parent deserializer. |

## Left out

- The serde `DeserializeSeed`/visitor protocol and `into_deserializer` are a foreign library. Seeds are modelled as identities that return the input they are given, so a seed never fails. In the source the slot is written (src/de/map.rs:63, 70, 90, 95) before the key seed runs (src/de/map.rs:64, 71, 91, 96). A failing key seed would therefore return an error with the slot already filled. The model, whose key requests write the slot only when they produce a key, does not capture that case.
- The parent `Deserializer` (`src/de/mod.rs`) is not part of this model. This includes its `peek`, its `has_value_field` flag, and the recursive decoding that `Nested` and `InnerValue` delegate to. The peek result and the flag are parameters of each key request, and delegation is the outcome `Delegate`. Because the peeked event is a parameter, the model cannot consume it: peeking does not advance the event stream. The parent's lookahead buffer itself is not modelled.
- `EscapedDeserializer` and the reader's `decoder()` are not modelled. Unescaping and decoding are not part of this model; only the unescape flag is recorded.
- Byte-level attribute parsing (`src/events/attributes.rs`) is not part of this model. A tag's attribute span is a sequence of entries, each a well-formed pair or a fault. The offset counts entries, not bytes, and starts at 0 rather than at the byte length of the tag name.
- `Events.Attributes.Next`: after a fault, the cursor is assumed to move to the end of its span, as quick-xml's `Attributes` iterator does in `src/events/attributes.rs`, which is not part of this model. The accessor cannot observe this: the `?` at src/de/map.rs:46 returns before src/de/map.rs:47 saves the offset.
- `Events.LocalName`: the first-colon rule follows `BytesStart::local_name` in `src/events/mod.rs`, which is not part of this model.
- `INNER_VALUE` is defined in `src/de/mod.rs`, which is not part of this model. Its value is taken to be the reserved field name `$value`.
- The tokenizer, the unescaper and the namespace resolver are not modelled.
- `benches/bench.rs` is a timing harness with no logic to model. Its asserted counts depend on a sample file that is not available.
- The `de` back-reference is not a field of `MapAccess`. Rust lifetimes and borrowing have no counterpart here.
- `MapAccess::new` returns a `Result` that is always `Ok`, so it is a plain constructor.
