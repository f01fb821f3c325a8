# Device-tree modalias builder

A Dafny model of the Linux device-tree module helpers in `drivers/of/module.c`.

`of_modalias(np, str, len)` writes the modalias `of:N<name>T<type>C<compat>C<compat>...` of a device-tree node into a caller buffer of `len` bytes. It works one field at a time with `snprintf`, a cursor and a remaining length. It returns the untruncated length whatever `len` is, so a caller can first ask for the size with `(NULL, 0)`.

`of_request_module(np)` uses that in four steps:
1. it measures the modalias;
2. it allocates the size plus one byte;
3. it fills the buffer and forces the terminator;
4. it hands the string to the module loader and frees the buffer.

The model has three modules:

- `CStrings` gives the C conventions the code relies on: the NUL terminator, reading a C string out of a buffer, `snprintf` with a `%s` argument, and `strchr`. A buffer is a `seq<char>`, and a write returns the new buffer.
- `Modalias` is the pure specification:
  - the node (`Node`: the rendered name, whatever the formatter prints for the device type, the "compatible" strings in order);
  - the full modalias `ModaliasString` and its length `FullLength`, which is defined independently as a sum of field sizes;
  - `Run`/`Shown`, what a buffer of `len` bytes shows after the builder has run. `Window` records the committed text before the cursor, the remaining length, and any unsanitised head a skipped field left after the cursor.
- `OfModule` is the imperative code:
  - `OfModalias` and its two per-field steps, `FormatPrefix` and `FormatCompatible`;
  - the `strchr` space-replacement loop, `ReplaceSpaces`;
  - `OfRequestModule`. It allocates a fresh array, calls the loader as a function parameter, and returns a trace of the buffer's life (allocate, load, free).

`Scenarios` checks concrete nodes against the expected strings.

Behaviour the model makes explicit:
- A compatible field whose size is not below the remaining length is skipped. The cursor does not move.
- A later, shorter field can still fit. A truncated modalias is therefore not always a prefix of the full one (`Scenarios.TruncatedNotPrefix`).
- A skipped field's head is still written and is not sanitised. If it is the last field, it stays visible, spaces included (`Scenarios.UnsanitisedHead`).
- Only the name-and-type field is clamped to len - 1 when it does not fit (lines 32-35). A compatible field that does not fit leaves the cursor where it was (lines 40-41).
- When the name-and-type field fits, the committed text is that field followed by the sanitised fields of an in-order selection of the compatible strings. Only a proper head of the last field can follow it (`Modalias.ShownIsSelection`).

Errors are the kernel's negative error numbers: `-EINVAL` (22), `-ENODEV` (19) and `-ENOMEM` (12).

## Model

| member | source | states |
|---|---|---|
| OfModule.OfModalias | drivers/of/module.c:11-52 | Returns -EINVAL exactly when len < 0, or len > 0 with a NULL buffer, and then leaves the buffer alone. Otherwise it returns the full modalias length for every len, including 0. No byte at or past len changes, and len == 0 writes nothing. With len > 0 a NUL lies inside the len bytes and the C string read back is `Shown(np, len)`. With len above the full length, the buffer holds exactly the modalias followed by a NUL. |
| OfModule.FormatPrefix | drivers/of/module.c:29-35 | The name-and-type field adds its untruncated size to the total. Cursor plus remaining length stays equal to len, and nothing at or past len is written. With len > 0 the buffer shows the starting window: the whole field if it fits, otherwise its first len - 1 bytes, with the cursor on the NUL at len - 1 and the remaining length 1. |
| OfModule.FormatCompatible | drivers/of/module.c:37-49 | One compatible field adds 1 + its length to the total. It writes only inside the remaining window and keeps cursor + remaining constant. With remaining 0 it writes nothing. A field whose size is not below the remaining length leaves the cursor and remaining length unchanged. A field that fits advances the cursor by its size and leaves at least one byte. With remaining above 0 the buffer then shows the next window (`Step`): the sanitised field committed if it fits, its head pending if not. |
| OfModule.ReplaceSpaces | drivers/of/module.c:42-46 | The strchr loop turns every ' ' between the cursor and the field's NUL into '_'. Every other byte, the NUL included, is unchanged. |
| OfModule.CommitField | drivers/of/module.c:42-48 | A field that fits, once written with its NUL, has its spaces replaced. No byte outside the remaining window changes. Before the new cursor, past the field, the buffer holds the old text plus the sanitised field, with a NUL at the new cursor. |
| OfModule.SkipHolds | drivers/of/module.c:38-41 | A field that does not fit leaves the committed text and the cursor alone. Its first remaining - 1 bytes and a NUL follow the cursor as the pending text. |
| OfModule.BufferShowsResult | drivers/of/module.c:29-51 | At the end of the loop the buffer has a NUL within len bytes and reads back as `Shown(np, len)`. When len exceeds the full length, it reads back as the whole modalias. |
| OfModule.OfRequestModule | drivers/of/module.c:54-80 | A NULL node gives -ENODEV and allocates nothing. A failed allocation gives -ENOMEM and holds no buffer. Otherwise the trace is: allocate the full length + 1, load exactly the untruncated modalias, free. The loader's result is returned after the free. |
| CStrings.Snprintf | drivers/of/module.c:29-31 | The formatter returns the untruncated length. With window 0 it writes nothing. Otherwise it writes min(length, window - 1) bytes of the text and a NUL after them, and touches no other byte. |
| CStrings.StrChr | drivers/of/module.c:43 | Returns the first position at or after the start that holds the character, with no NUL before it. If the terminator comes first, it returns none. |
| CStrings.CString | drivers/of/module.c:75-76 | What the loader reads is the longest NUL-free prefix of the buffer, ended by a NUL when shorter than the buffer. |
| CStrings.TerminatedAt | drivers/of/module.c:74-76 | A buffer holding a NUL-free text followed by a NUL reads back as exactly that text. |
| Modalias.Sanitise | drivers/of/module.c:42-46 | The substitution keeps the length, turns every ' ' into '_', keeps every other character, and leaves no ' '. |
| Modalias.FieldsLength | drivers/of/module.c:38-39 | The sanitised compatible part is as long as the sum of the fields' logical sizes, 1 + length each. |
| Modalias.ModaliasLength | drivers/of/module.c:29-51 | The returned total, defined as a sum of field sizes, is the length of the modalias string. Substitution does not change it. |
| Modalias.FieldsNoNul | drivers/of/module.c:37-38 | Compatible strings without NUL give a compatible part without NUL. |
| Modalias.ModaliasNoNul | drivers/of/module.c:29-38 | A node made of C strings gives a modalias with no NUL inside, so reading it back stops at its end. |
| Modalias.FieldsHaveNoSpace | drivers/of/module.c:42-46 | After substitution the compatible part holds no space. |
| Modalias.SanitisedOnlyAfterPrefix | drivers/of/module.c:29-46 | The name-and-type field is copied unchanged. Every character after it is not ' '. |
| Modalias.FieldPlacement | drivers/of/module.c:37-38 | The i-th compatible string's sanitised field starts where the fields before it end, so property order is kept. |
| Modalias.Start | drivers/of/module.c:32-35 | The starting window's committed text is a prefix of the name-and-type field. Committed length plus remaining length is len, and the remaining length is at least 1. |
| Modalias.Step | drivers/of/module.c:40-48 | A field step keeps committed length plus remaining length, and the remaining length stays at least 1. It only extends the committed text, and leaves pending text shorter than the remaining length. |
| Modalias.Run | drivers/of/module.c:29-49 | After all fields, committed length plus remaining length is still len. The remaining length never drops below 1, and the pending text fits before the last byte. |
| Modalias.RunOneMore | drivers/of/module.c:37-39 | One more compatible string adds 1 + its length to the total and one field step to the window. |
| Modalias.ShownFits | drivers/of/module.c:32-48 | The text a buffer shows is shorter than len, so its NUL is in bounds. |
| Modalias.ShownNoNul | drivers/of/module.c:29-48 | The shown text contains no NUL before its end. |
| Modalias.RunNoNul | drivers/of/module.c:29-48 | Committed and pending text are NUL-free when the node's strings are. |
| Modalias.RunUntruncated | drivers/of/module.c:37-49 | While everything so far fits, the window holds the name-and-type field and the sanitised fields, with nothing pending. The remaining length is len minus their sizes. |
| Modalias.ShownIsModalias | drivers/of/module.c:29-51 | The buffer shows the whole modalias if and only if len exceeds the full length. |
| Modalias.RunAfterPrefixTruncated | drivers/of/module.c:32-41 | Once the name-and-type field is cut short, the remaining length is 1 and no compatible field is written after it. |
| Modalias.ShownWhenPrefixTruncated | drivers/of/module.c:32-41 | With len no larger than the name-and-type field, the buffer shows the field's first len - 1 bytes. |
| Modalias.RunKeepsPrefix | drivers/of/module.c:32-48 | When the name-and-type field fits, the committed text always begins with it. |
| Modalias.ShownStartsWithPrefix | drivers/of/module.c:32-48 | When the name-and-type field fits, the shown text begins with all of it. |
| Modalias.CommittedIsSelection | drivers/of/module.c:37-48 | When the name-and-type field fits, the committed text is that field followed by the sanitised fields of an in-order selection of the compatible strings. |
| Modalias.PendingIsHeadOfLast | drivers/of/module.c:38-41 | Text past the cursor is empty or a proper, unsanitised head of the last compatible field. |
| Modalias.ShownIsSelection | drivers/of/module.c:29-49 | When the name-and-type field fits, the truncated text is that field, the sanitised fields of an in-order selection of the compatible strings, and possibly a proper head of the last field. |
| Scenarios.NoCompatible | drivers/of/module.c:29-31 | Name "uart@1000", type "serial" and no compatible strings give "of:Nuart@1000Tserial", of length 20. |
| Scenarios.SpaceSubstitution | drivers/of/module.c:42-46 | "acme,foo bar" is written as "Cacme,foo_bar", with the same length. |
| Scenarios.EmptyDeviceType | drivers/of/module.c:29-38 | A device type printed as the empty string puts 'T' directly before the first 'C'. |
| Scenarios.SkippedFieldThenFit | drivers/of/module.c:38-48 | With 9 bytes, "xxxxxxxx" is skipped and the later "y" is still written: "of:NaTCy". |
| Scenarios.SkippedFieldModalias | drivers/of/module.c:29-49 | The same node's full modalias is "of:NaTCxxxxxxxxCy". |
| Scenarios.TruncatedNotPrefix | drivers/of/module.c:38-48 | So a truncated result need not be a prefix of the full modalias. |
| Scenarios.UnsanitisedHead | drivers/of/module.c:40-41 | When the last field is skipped, its written head stays in the buffer unsanitised: "of:NaTCb " instead of a prefix of "of:NaTCb_c_d". |

## Left out

- `request_module` (line 76) is user-space module loading. It is the function parameter `requestModule`, and its effects are not modelled.
- `kmalloc` and `kfree` (lines 70, 77) are not modelled. Allocation success is the input `allocSucceeds`, and the free is an event in the returned trace. The allocated bytes start default-initialised rather than undefined. This does not matter: `OfModalias` is proved for any initial buffer contents.
- How `%pOFn` renders the node name, and how the formatter renders `of_node_get_device_type` (lines 29-30), are not modelled. Both are vsprintf internals, so both strings are inputs. When a node has no `device_type`, the function returns NULL and the kernel's formatter prints "(null)", so the type text is "(null)" and not empty.
- The C code works on bytes and the model on `char`. Each `char` stands for one byte of the C string, so `FullLength` and the cursor arithmetic count bytes.
- `of_property_for_each_string` (line 37) is an ordered sequence of strings. How the property is walked is not modelled.
- The node changing between the size pass and the fill pass is concurrency, which the device-tree subsystem guards against. The model reads one unchanging node.
- `ssize_t` width is not modelled. Lengths are unbounded integers, because a modalias long enough to overflow `ssize_t` cannot exist in memory.
- Every string of the node must be free of NUL, and a present buffer must have at least `len` bytes. These are the C-string and pointer conventions the code relies on, not checks it makes.
- The check at lines 64-65 (a negative size from the first pass) cannot trigger: `(NULL, 0)` always passes the argument check. The model proves that branch dead rather than modelling a path into it.
- `EXPORT_SYMBOL_GPL` and the includes have no behaviour.
