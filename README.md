# Var Inspector and Windows TCP-info probe, modelled in Dafny

This project models two pieces of the RuneLite client.

**The developer tools' Var Inspector** (`VarInspector.java`) is a window that logs
changes to the client's variables: varbits, varps ("VarPlayer"), VarClient ints
and VarClient strings. The model covers:

- the `long` key that packs a variable's kind and id, and its
  "ordinal:id" string form;
- the persistence of key sets as lists of such strings;
- the name-rule language: `^prefix`, `$suffix` and substring rules,
  trimmed and case-insensitive;
- the decision to drop, log or highlight a change, and the tracker panel
  with its tick headers and its bound of 10 000 rows;
- the blacklist/highlight editor: the set it edits and the list that shows it;
- the change handlers, and the snapshots they compare against.

**The world hopper's Windows ping probe** (`WindowsTcpInfoProbe.java`,
`TcpInfoV0.java`) reads Winsock's `TCP_INFO_v0` for the socket behind a Java
`FileDescriptor`. The model covers:

- the guards: a descriptor, a Windows host, a socket candidate from the
  `handle` or `fd` field, and an `SO_TYPE` check;
- the `WSAIoctl(SIO_TCP_INFO)` query;
- the JNA structure layout: offsets, padding, size, and a decoder with its
  inverse encoder.

The modules follow the source:

| module | file | role |
|---|---|---|
| `JavaLang` | `java_lang.dfy` | Java `int`/`long`/`byte` ranges and casts, `trim`, ASCII `toLowerCase`, `parseInt`/`parseLong`, `toString` |
| `VarKeys` | `var_keys.dfy` | `key` / `keyToString` / `stringToKey`, `loadKeySet` / `saveKeySet` |
| `NameRules` | `name_rules.dfy` | `matchesRule`, `matchesAnyNameRule` |
| `VarLog` | `var_log.dfy` | the filter decision and the tracker log as values |
| `Devtools` | `var_inspector.dfy` | the `VarInspector` class: editor, log, handlers, open/close |
| `Layouts` | `layouts.dfy` | little-endian fields, running offsets and alignment of a JNA structure |
| `TcpInfo` | `tcp_info.dfy` | the `TCP_INFO_v0` layout and its decoder |
| `Ping` | `tcp_info_probe.dfy` | `tryGetTcpInfoV0` and its helpers |

The Var Inspector is a class with mutable fields. Its methods carry `modifies`
clauses, and each method states its new state through the value-level
functions of `VarLog` and `VarKeys`. The probe and the layout are pure
functions. The Winsock calls are not executed. What each call returns, or that
it throws, is an input (`Ping.Native`). The calls the probe makes are recorded
in order (`Ping.Trace`).

## Model

| member | source | states |
|---|---|---|
| `JavaLang.TrimStartShape` | runelite-client/src/main/java/net/runelite/client/plugins/devtools/VarInspector.java:633 | `trim` at the front removes a run of characters up to U+0020 and stops at the first other character |
| `JavaLang.TrimEndShape` | runelite-client/src/main/java/net/runelite/client/plugins/devtools/VarInspector.java:633 | `trim` at the back removes a run of characters up to U+0020 and stops at the last other character |
| `JavaLang.TrimShape` | runelite-client/src/main/java/net/runelite/client/plugins/devtools/VarInspector.java:633 | `String.trim` leaves the slice of the string between runs of characters up to U+0020 at each end, and the slice neither starts nor ends with one |
| `JavaLang.Lower` | runelite-client/src/main/java/net/runelite/client/plugins/devtools/VarInspector.java:697 | `toLowerCase` keeps the length and lower-cases each character on its own |
| `JavaLang.DecimalString` | runelite-client/src/main/java/net/runelite/client/plugins/devtools/VarInspector.java:361 | `Integer.toString` gives a non-empty numeral with no colon, signed exactly when the number is negative and ending in a digit |
| `JavaLang.ParseDecimal` | runelite-client/src/main/java/net/runelite/client/plugins/devtools/VarInspector.java:149-150 | a parsed value is within the type's range, and the empty string fails |
| `JavaLang.ParseSyntax` | runelite-client/src/main/java/net/runelite/client/plugins/devtools/VarInspector.java:149-150 | `parseInt` and `parseLong` accept only an optional sign followed by digits, and what `parseInt` accepts `parseLong` reads as the same value |
| `JavaLang.ToInt32` | runelite-client/src/main/java/net/runelite/client/plugins/devtools/VarInspector.java:135-140 | the `(int)` cast keeps the value modulo 2^32 and leaves values already in `int` range unchanged |
| `JavaLang.ToInt64` | runelite-client/src/main/java/net/runelite/client/plugins/devtools/VarInspector.java:142-152 | `long` arithmetic keeps the value modulo 2^64 and leaves values already in `long` range unchanged |
| `JavaLang.ParseIntOfDecimal` | runelite-client/src/main/java/net/runelite/client/plugins/devtools/VarInspector.java:135-152 | `Integer.parseInt` gives back every `int` that `Integer.toString` printed |
| `JavaLang.ParseLongOfDecimal` | runelite-client/src/main/java/net/runelite/client/plugins/devtools/VarInspector.java:135-152 | `Long.parseLong` gives back every `long` that was printed |
| `JavaLang.LowerTrim` | runelite-client/src/main/java/net/runelite/client/plugins/devtools/VarInspector.java:672 | trimming and lower-casing commute |
| `VarKeys.Key` | runelite-client/src/main/java/net/runelite/client/plugins/devtools/VarInspector.java:130-133 | the key is non-negative; its high word is the kind's ordinal and its low word the id read as unsigned |
| `VarKeys.HighWord` | runelite-client/src/main/java/net/runelite/client/plugins/devtools/VarInspector.java:135-140 | for every `long`, the `(int) (k >>> 32)` that `keyToString` prints is the key divided by 2^32, rounded down |
| `VarKeys.KeyToString` | runelite-client/src/main/java/net/runelite/client/plugins/devtools/VarInspector.java:135-140 | the printed key has a colon, and its first colon is not the first character, so `stringToKey` splits it; the content is `KeyStringRoundTrip` |
| `VarKeys.StringToKey` | runelite-client/src/main/java/net/runelite/client/plugins/devtools/VarInspector.java:142-152 | a string with no colon, or a colon first, fails; success implies a first colon past position 0 |
| `VarKeys.SplitAtColon` | runelite-client/src/main/java/net/runelite/client/plugins/devtools/VarInspector.java:142-152 | on "left:right" with a colon-free `left`, parsing splits exactly there and parses the two halves |
| `VarKeys.KeyStringRoundTrip` | runelite-client/src/main/java/net/runelite/client/plugins/devtools/VarInspector.java:135-152 | `stringToKey(keyToString(k)) == k` for every `long` `k`, negative ones included |
| `VarKeys.KeyRoundTrip` | runelite-client/src/main/java/net/runelite/client/plugins/devtools/VarInspector.java:130-152 | every key made by `key` survives printing and parsing |
| `VarKeys.KeyInjective` | runelite-client/src/main/java/net/runelite/client/plugins/devtools/VarInspector.java:130-133 | two (kind, id) pairs share a key exactly when they are equal |
| `VarKeys.ParseAll` | runelite-client/src/main/java/net/runelite/client/plugins/devtools/VarInspector.java:343-346 | the entries parse exactly when each one does, and then element by element |
| `VarKeys.LoadKeySet` | runelite-client/src/main/java/net/runelite/client/plugins/devtools/VarInspector.java:335-351 | every loaded key is what some configuration entry parses to |
| `VarKeys.LoadKeySetAllOrNothing` | runelite-client/src/main/java/net/runelite/client/plugins/devtools/VarInspector.java:335-351 | one bad entry empties the whole set; otherwise the set is exactly the keys the entries parse to |
| `VarKeys.SaveKeySet` | runelite-client/src/main/java/net/runelite/client/plugins/devtools/VarInspector.java:353-357 | one saved entry per key |
| `VarKeys.ParseAllOf` | runelite-client/src/main/java/net/runelite/client/plugins/devtools/VarInspector.java:343-346 | entries that each parse to the matching key parse, as a list, to the list of keys |
| `VarKeys.SaveLoadRoundTrip` | runelite-client/src/main/java/net/runelite/client/plugins/devtools/VarInspector.java:335-357 | loading what was saved gives back the same key set |
| `NameRules.MatchesRule` | runelite-client/src/main/java/net/runelite/client/plugins/devtools/VarInspector.java:665-688 | a null rule, or a rule that is blank after trimming, matches nothing |
| `NameRules.RuleForms` | runelite-client/src/main/java/net/runelite/client/plugins/devtools/VarInspector.java:672-687 | "^x" matches exactly the names starting with x, "$x" exactly those ending with x, and a plain x exactly those containing it |
| `NameRules.MatchesAnyNameRule` | runelite-client/src/main/java/net/runelite/client/plugins/devtools/VarInspector.java:690-706 | the loop finds a match exactly when some rule of the set matches the lower-cased name; a null name or an empty set matches nothing |
| `NameRules.RuleCaseInsensitive` | runelite-client/src/main/java/net/runelite/client/plugins/devtools/VarInspector.java:672 | a rule matches the same names whatever the case of its letters |
| `NameRules.NameCaseInsensitive` | runelite-client/src/main/java/net/runelite/client/plugins/devtools/VarInspector.java:697 | names differing only in letter case match the same rules |
| `NameRules.RulePaddingIgnored` | runelite-client/src/main/java/net/runelite/client/plugins/devtools/VarInspector.java:672 | blanks around a rule change nothing it matches |
| `VarLog.Decide` | runelite-client/src/main/java/net/runelite/client/plugins/devtools/VarInspector.java:366-379 | a change is dropped exactly when its kind is unticked, its key is blacklisted or a blacklist rule matches its name; a shown change is highlighted exactly when its key is highlighted or a highlight rule matches |
| `VarLog.EntryText` | runelite-client/src/main/java/net/runelite/client/plugins/devtools/VarInspector.java:387-396 | a header reads "Tick " followed by the tick; a change line starts with the kind's name, the variable's name and "changed: " |
| `VarLog.HeaderTextInjective` | runelite-client/src/main/java/net/runelite/client/plugins/devtools/VarInspector.java:387 | headers of two ticks read the same exactly when the ticks are equal |
| `VarLog.NewRows` | runelite-client/src/main/java/net/runelite/client/plugins/devtools/VarInspector.java:384-406 | a change adds its line last, preceded by a header for its tick exactly when the tick is new |
| `VarLog.KeepNewest` | runelite-client/src/main/java/net/runelite/client/plugins/devtools/VarInspector.java:408-411 | at most 10 000 rows remain, they are a suffix of the rows, nothing is removed below the bound, and exactly 10 000 remain above it |
| `VarLog.Append` | runelite-client/src/main/java/net/runelite/client/plugins/devtools/VarInspector.java:381-414 | the last tick becomes the change's tick, the log stays within 10 000 rows, and the new line is its last row |
| `VarLog.Record` | runelite-client/src/main/java/net/runelite/client/plugins/devtools/VarInspector.java:359-415 | a dropped change leaves the log as it was; any other change sets the last tick and keeps the log within the bound |
| `VarLog.RecordEffect` | runelite-client/src/main/java/net/runelite/client/plugins/devtools/VarInspector.java:359-415 | a dropped change leaves the log unchanged; a shown change becomes the last row, with the highlight the decision gives |
| `VarLog.AppendEndsWith` | runelite-client/src/main/java/net/runelite/client/plugins/devtools/VarInspector.java:384-406 | the log ends with the new line, directly preceded by a header for its tick when the tick is new, even when the bound evicts rows |
| `VarLog.SameTickNoHeader` | runelite-client/src/main/java/net/runelite/client/plugins/devtools/VarInspector.java:384-394 | a change in the current tick appends exactly its line, then evicts as the bound requires: no header is added |
| `VarLog.AppendEvictsOldest` | runelite-client/src/main/java/net/runelite/client/plugins/devtools/VarInspector.java:408-411 | eviction happens only above the bound and only removes the oldest rows |
| `VarLog.QuotedInjective` | runelite-client/src/main/java/net/runelite/client/plugins/devtools/VarInspector.java:482-497 | the quoted forms of two VarClient strings (null printed as `null`) are equal exactly when the strings are |
| `VarLog.VarbitPassExtend` | runelite-client/src/main/java/net/runelite/client/plugins/devtools/VarInspector.java:424-435 | the pass over one more varbit is one more step of the loop |
| `VarLog.UnchangedVarbitsLogNothing` | runelite-client/src/main/java/net/runelite/client/plugins/devtools/VarInspector.java:424-435 | when no varbit of the varp changed, the loop logs nothing and leaves the second snapshot alone |
| `Devtools.ListsExactlyOnce` | runelite-client/src/main/java/net/runelite/client/plugins/devtools/VarInspector.java:159-166 | a list that lists a set holds only the set's elements, holds all of them, and holds none twice |
| `Devtools.Enumerate` | runelite-client/src/main/java/net/runelite/client/plugins/devtools/VarInspector.java:159-166 | the loop over a set produces a list that lists it exactly once |
| `Devtools.CopyInto` | runelite-client/src/main/java/net/runelite/client/plugins/devtools/VarInspector.java:454-455 | `arraycopy` leaves the array equal to the source's prefix of its length |
| `Devtools.VarInspector.constructor` | runelite-client/src/main/java/net/runelite/client/plugins/devtools/VarInspector.java:259-263 | the four sets are what loading the configuration gives; every kind is ticked; the blacklist id editor is shown and lists its set; the log is empty and the window closed |
| `Devtools.VarInspector.RefreshEditorList` | runelite-client/src/main/java/net/runelite/client/plugins/devtools/VarInspector.java:577-592 | the list of the current edit mode lists the set it edits, and the other list is untouched |
| `Devtools.VarInspector.ChangeState` | runelite-client/src/main/java/net/runelite/client/plugins/devtools/VarInspector.java:168-172 | the editor switches sets, its list shows the new set, and the list of the other edit mode is left as it was |
| `Devtools.VarInspector.ChangeEditMode` | runelite-client/src/main/java/net/runelite/client/plugins/devtools/VarInspector.java:569-575 | the editor switches between ids and rules, its list shows the new set, and the list of the mode left is as it was |
| `Devtools.VarInspector.AddToSet` | runelite-client/src/main/java/net/runelite/client/plugins/devtools/VarInspector.java:174-181 | the set `GetSet` selects (blacklist or highlights, by state) gains exactly the chosen key, the other key set is unchanged, and the list shows the new set |
| `Devtools.VarInspector.RemoveSelectedFromSet` | runelite-client/src/main/java/net/runelite/client/plugins/devtools/VarInspector.java:183-193 | with no selection nothing changes; otherwise the set `GetSet` selects loses exactly the selected key, the other key set is unchanged, and the list shows the new set |
| `Devtools.VarInspector.UpdateSet` | runelite-client/src/main/java/net/runelite/client/plugins/devtools/VarInspector.java:174-193 | the key set `GetSet` selects becomes the given one, the other is unchanged, and the list shows it |
| `Devtools.VarInspector.AddToEditor` | runelite-client/src/main/java/net/runelite/client/plugins/devtools/VarInspector.java:620-643 | in id mode as `addToSet`; in rule mode the rule set `GetNames` selects gains the trimmed rule, a null or blank rule changes nothing, and no other set changes |
| `Devtools.VarInspector.UpdateNames` | runelite-client/src/main/java/net/runelite/client/plugins/devtools/VarInspector.java:638-641 | the rule set `GetNames` selects becomes the given one, the other is unchanged, and the list shows it |
| `Devtools.VarInspector.RemoveSelectedFromEditor` | runelite-client/src/main/java/net/runelite/client/plugins/devtools/VarInspector.java:645-663 | the selected row leaves the set the current mode edits (`GetSet` or `GetNames`); no selection changes nothing; the sets of the other mode and state are unchanged |
| `Devtools.VarInspector.RemoveSelectedRule` | runelite-client/src/main/java/net/runelite/client/plugins/devtools/VarInspector.java:653-662 | with no selection nothing changes; otherwise the rule set `GetNames` selects loses exactly the selected rule |
| `Devtools.VarInspector.AddVarLog` | runelite-client/src/main/java/net/runelite/client/plugins/devtools/VarInspector.java:359-415 | the tracker becomes what the filter decision and the bounded append give for this change; the bound holds |
| `Devtools.VarInspector.AppendRow` | runelite-client/src/main/java/net/runelite/client/plugins/devtools/VarInspector.java:381-414 | the header, the line and the trimming loop leave the log equal to `VarLog.Append` of the old log |
| `Devtools.VarInspector.ClearLog` | runelite-client/src/main/java/net/runelite/client/plugins/devtools/VarInspector.java:248-253 | the tracker is empty and the window's invariant holds |
| `Devtools.VarInspector.CheckVarbits` | runelite-client/src/main/java/net/runelite/client/plugins/devtools/VarInspector.java:424-435 | the loop over a varp's varbits leaves the second snapshot word and the log equal to the varbit pass; no other snapshot word changes |
| `Devtools.VarInspector.CheckVarbit` | runelite-client/src/main/java/net/runelite/client/plugins/devtools/VarInspector.java:426-434 | one varbit is compared, and when it changed it is logged and written into the second snapshot word |
| `Devtools.VarInspector.CompareVarp` | runelite-client/src/main/java/net/runelite/client/plugins/devtools/VarInspector.java:438-452 | the varp is logged exactly when its second snapshot word differs from its new value |
| `Devtools.VarInspector.LogVarpChange` | runelite-client/src/main/java/net/runelite/client/plugins/devtools/VarInspector.java:424-452 | the log after both comparisons is the varbit pass over the varp's varbits followed by the varp comparison against the second snapshot word that pass leaves |
| `Devtools.VarInspector.SyncSnapshots` | runelite-client/src/main/java/net/runelite/client/plugins/devtools/VarInspector.java:454-455 | both snapshots equal the client's varps afterwards |
| `Devtools.VarInspector.OnVarbitChanged` | runelite-client/src/main/java/net/runelite/client/plugins/devtools/VarInspector.java:417-456 | the log is the varbit pass followed by the varp comparison; both snapshots then equal the client's varps; the window's invariant holds |
| `Devtools.VarInspector.OnVarClientIntChanged` | runelite-client/src/main/java/net/runelite/client/plugins/devtools/VarInspector.java:458-471 | the copy takes the new value (0 by default); a change is recorded exactly when old and new differ |
| `Devtools.VarInspector.OnVarClientStrChanged` | runelite-client/src/main/java/net/runelite/client/plugins/devtools/VarInspector.java:473-502 | the copy takes the new value ("" by default, null allowed); a change is recorded, quoted, exactly when old and new differ |
| `Devtools.VarInspector.Open` | runelite-client/src/main/java/net/runelite/client/plugins/devtools/VarInspector.java:504-534 | the snapshots are allocated on first use and reused after, both hold the client's varps, and the VarClient copy and varbit index are taken |
| `Devtools.VarInspector.Close` | runelite-client/src/main/java/net/runelite/client/plugins/devtools/VarInspector.java:536-550 | the tracker is empty and the VarClient copy and varbit index are dropped |
| `Layouts.LittleEndianOfBytes` | runelite-client/src/main/java/net/runelite/client/plugins/worldhopper/ping/WindowsTcpInfoProbe.java:191 | reading the little-endian bytes of a value gives the value back |
| `Layouts.BytesOfLittleEndian` | runelite-client/src/main/java/net/runelite/client/plugins/worldhopper/ping/WindowsTcpInfoProbe.java:191 | writing back the value bytes read to gives the same bytes |
| `Layouts.SignedUnsigned` | runelite-client/src/main/java/net/runelite/client/plugins/worldhopper/ping/TcpInfoV0.java:9-30 | a signed field value survives the round trip through its unsigned bit pattern |
| `Layouts.UnsignedSigned` | runelite-client/src/main/java/net/runelite/client/plugins/worldhopper/ping/TcpInfoV0.java:9-30 | an unsigned bit pattern survives the round trip through its signed reading |
| `Layouts.ReadWrite` | runelite-client/src/main/java/net/runelite/client/plugins/worldhopper/ping/TcpInfoV0.java:9-30 | a field reads back the value written to it |
| `Layouts.WriteRead` | runelite-client/src/main/java/net/runelite/client/plugins/worldhopper/ping/TcpInfoV0.java:9-30 | writing a field's value back reproduces its memory |
| `Layouts.FieldsInOrder` | runelite-client/src/main/java/net/runelite/client/plugins/worldhopper/ping/TcpInfoV0.java:32-43 | a field earlier in the field order lies wholly before every later field |
| `Layouts.AlignedIsRunning` | runelite-client/src/main/java/net/runelite/client/plugins/worldhopper/ping/TcpInfoV0.java:32-43 | when every running offset is aligned, native alignment places every field at its running offset |
| `Layouts.ReadAllAt` | runelite-client/src/main/java/net/runelite/client/plugins/worldhopper/ping/TcpInfoV0.java:32-43 | the structure read reads field i from bytes `Offset(i)` up to `Offset(i + 1)` |
| `Layouts.ReadAllWriteAll` | runelite-client/src/main/java/net/runelite/client/plugins/worldhopper/ping/TcpInfoV0.java:32-43 | reading a written structure gives back every field |
| `Layouts.WriteAllReadAll` | runelite-client/src/main/java/net/runelite/client/plugins/worldhopper/ping/TcpInfoV0.java:32-43 | writing back what was read reproduces the memory the layout covers |
| `TcpInfo.LayoutFollowsFieldOrder` | runelite-client/src/main/java/net/runelite/client/plugins/worldhopper/ping/TcpInfoV0.java:9-42 | the layout's field names are exactly `getFieldOrder()`, with the declared Java types |
| `TcpInfo.OffsetIs` | runelite-client/src/main/java/net/runelite/client/plugins/worldhopper/ping/TcpInfoV0.java:9-30 | the offsets of the 20 fields are 0, 4, 8, 16, 17, 20, … 80, 84, and the layout ends at 85 |
| `TcpInfo.LayoutSize` | runelite-client/src/main/java/net/runelite/client/plugins/worldhopper/ping/TcpInfoV0.java:9-30 | 20 fields spanning 85 bytes, less than the structure's 88 |
| `TcpInfo.StructSizeRounded` | runelite-client/src/main/java/net/runelite/client/plugins/worldhopper/ping/TcpInfoV0.java:9-30 | the structure's size is the layout rounded up to its largest alignment, 8 |
| `TcpInfo.PaddingAfterTimestamps` | runelite-client/src/main/java/net/runelite/client/plugins/worldhopper/ping/TcpInfoV0.java:13-16 | `_pad1` covers bytes 17–19 right after the one-byte `TimestampsEnabled`, so `RttUs` starts at 20, a multiple of 4 |
| `TcpInfo.NaturallyAligned` | runelite-client/src/main/java/net/runelite/client/plugins/worldhopper/ping/TcpInfoV0.java:9-30 | every field starts at a multiple of its alignment, so the running offsets are the native ones |
| `TcpInfo.PaddingIsNeeded` | runelite-client/src/main/java/net/runelite/client/plugins/worldhopper/ping/WindowsTcpInfoProbe.java:236-237 | without `_pad1`, `RttUs` would fall at the misaligned offset 17 where native alignment puts it at 20 |
| `TcpInfo.Fields` | runelite-client/src/main/java/net/runelite/client/plugins/worldhopper/ping/TcpInfoV0.java:9-30 | the record has one value per layout field, each in its field's Java range |
| `TcpInfo.FromFieldsOfFields` | runelite-client/src/main/java/net/runelite/client/plugins/worldhopper/ping/TcpInfoV0.java:9-30 | building a record from its own field values gives it back |
| `TcpInfo.FieldsOfFromFields` | runelite-client/src/main/java/net/runelite/client/plugins/worldhopper/ping/TcpInfoV0.java:9-30 | the fields of a record built from values are those values |
| `TcpInfo.Encode` | runelite-client/src/main/java/net/runelite/client/plugins/worldhopper/ping/WindowsTcpInfoProbe.java:89-90 | the encoded structure is 88 bytes long |
| `TcpInfo.DecodeEncode` | runelite-client/src/main/java/net/runelite/client/plugins/worldhopper/ping/WindowsTcpInfoProbe.java:115 | decoding an encoded record gives it back |
| `TcpInfo.EncodeDecode` | runelite-client/src/main/java/net/runelite/client/plugins/worldhopper/ping/WindowsTcpInfoProbe.java:115 | re-encoding a decoded structure keeps every byte the layout covers; the three trailing bytes become zero |
| `TcpInfo.DecodeReadsFields` | runelite-client/src/main/java/net/runelite/client/plugins/worldhopper/ping/WindowsTcpInfoProbe.java:115 | `out.read()` fills the record's fields, in layout order, with the values read from the structure's memory |
| `TcpInfo.DecodedField` | runelite-client/src/main/java/net/runelite/client/plugins/worldhopper/ping/WindowsTcpInfoProbe.java:115 | decoded field i is read from the bytes the layout gives it |
| `TcpInfo.DecodedAtNativeOffsets` | runelite-client/src/main/java/net/runelite/client/plugins/worldhopper/ping/TcpInfoV0.java:9-30 | `State`, `Mss`, `RttUs`, `Cwnd`, `BytesOut` and `SynRetrans` are read as signed little-endian values from bytes 0–3, 4–7, 20–23, 32–35, 48–55 and 84 |
| `TcpInfo.OutsidePad` | runelite-client/src/main/java/net/runelite/client/plugins/worldhopper/ping/TcpInfoV0.java:14 | every field but `_pad1` lies wholly before or wholly after the padding bytes |
| `TcpInfo.SameNamedField` | runelite-client/src/main/java/net/runelite/client/plugins/worldhopper/ping/TcpInfoV0.java:14 | a field other than `_pad1` reads the same from memories that differ only in the padding |
| `TcpInfo.NamedFromFields` | runelite-client/src/main/java/net/runelite/client/plugins/worldhopper/ping/TcpInfoV0.java:14 | records built from values that differ only at `_pad1` agree in their named fields |
| `TcpInfo.PaddingIgnored` | runelite-client/src/main/java/net/runelite/client/plugins/worldhopper/ping/TcpInfoV0.java:14 | the bytes of `_pad1` and after the last field do not affect any named field of the decoded record |
| `Ping.ControlCodeBits` | runelite-client/src/main/java/net/runelite/client/plugins/worldhopper/ping/WindowsTcpInfoProbe.java:37 | the `int` literal `0xD8000027` is negative and has the bit pattern 0xD8000027 |
| `Ping.IsWindows` | runelite-client/src/main/java/net/runelite/client/plugins/worldhopper/ping/WindowsTcpInfoProbe.java:195-199 | a name taken as Windows is set and at least seven characters long; which names pass is stated by the three lemmas below |
| `Ping.IsWindowsIgnoresCase` | runelite-client/src/main/java/net/runelite/client/plugins/worldhopper/ping/WindowsTcpInfoProbe.java:195-199 | the test ignores the case of `os.name`, and an unset property is not Windows |
| `Ping.WindowsNameAccepted` | runelite-client/src/main/java/net/runelite/client/plugins/worldhopper/ping/WindowsTcpInfoProbe.java:195-199 | every `os.name` starting with "Windows" is accepted |
| `Ping.LinuxNameRejected` | runelite-client/src/main/java/net/runelite/client/plugins/worldhopper/ping/WindowsTcpInfoProbe.java:195-199 | "Linux" is rejected |
| `Ping.GetSocketCandidate` | runelite-client/src/main/java/net/runelite/client/plugins/worldhopper/ping/WindowsTcpInfoProbe.java:149-177 | a positive handle is the candidate; otherwise a non-negative `fd`; an unreadable field or anything else gives -1 |
| `Ping.CandidateSource` | runelite-client/src/main/java/net/runelite/client/plugins/worldhopper/ping/WindowsTcpInfoProbe.java:149-177 | the candidate is not -1 exactly when there is a positive handle, or no usable handle and a non-negative `fd` |
| `Ping.LittleEndianOne` | runelite-client/src/main/java/net/runelite/client/plugins/worldhopper/ping/WindowsTcpInfoProbe.java:191-192 | four little-endian bytes read 1 exactly when they are 1, 0, 0, 0 |
| `Ping.SoType` | runelite-client/src/main/java/net/runelite/client/plugins/worldhopper/ping/WindowsTcpInfoProbe.java:191-192 | the option reads `SOCK_STREAM` exactly when its bytes are 1, 0, 0, 0 |
| `Ping.IsWinsockStreamSocket` | runelite-client/src/main/java/net/runelite/client/plugins/worldhopper/ping/WindowsTcpInfoProbe.java:179-193 | a stream socket exactly when `getsockopt` returned 0 and the option bytes are 1, 0, 0, 0 |
| `Ping.QueryTcpInfo` | runelite-client/src/main/java/net/runelite/client/plugins/worldhopper/ping/WindowsTcpInfoProbe.java:83-125 | never throws; first issues `WSAIoctl` with the version-0 input and the 88-byte output; gives a record exactly when the call returned 0, and then the decoded structure |
| `Ping.TryGetTcpInfoV0AsWritten` | runelite-client/src/main/java/net/runelite/client/plugins/worldhopper/ping/WindowsTcpInfoProbe.java:48-126 | the code as written: it throws exactly when `getsockopt` throws past the early guards, and otherwise gives what the corrected probe gives |
| `Ping.TryGetTcpInfoV0` | runelite-client/src/main/java/net/runelite/client/plugins/worldhopper/ping/WindowsTcpInfoProbe.java:48-126 | the probe as corrected under "## Findings" (the stream check inside the catch-all): never throws; gives a record exactly when every guard passes and the query returned 0, and then the decoded structure |
| `Ping.EarlyExitsCallNothing` | runelite-client/src/main/java/net/runelite/client/plugins/worldhopper/ping/WindowsTcpInfoProbe.java:50-69 | no descriptor, another OS or no candidate gives null before any native call |
| `Ping.FailedStreamCheckSkipsIoctl` | runelite-client/src/main/java/net/runelite/client/plugins/worldhopper/ping/WindowsTcpInfoProbe.java:72-80 | a failed `SO_TYPE` check gives null after `getsockopt` alone |
| `Ping.QueryArguments` | runelite-client/src/main/java/net/runelite/client/plugins/worldhopper/ping/WindowsTcpInfoProbe.java:94-102 | past the guards, `getsockopt(SOL_SOCKET, SO_TYPE)` and then `WSAIoctl(SIO_TCP_INFO)` are called on the same candidate |
| `Ping.FailedQueryIgnoresBuffer` | runelite-client/src/main/java/net/runelite/client/plugins/worldhopper/ping/WindowsTcpInfoProbe.java:104-113 | a nonzero return code gives null whatever the output buffer holds |
| `Ping.AsWrittenDiffersOnlyOnStreamCheckThrow` | runelite-client/src/main/java/net/runelite/client/plugins/worldhopper/ping/WindowsTcpInfoProbe.java:48-126 | the code as written throws exactly when `getsockopt` throws past the early guards; it makes the same calls as the corrected probe, and agrees with it whenever it does not throw |
| `Ping.AsWrittenThrows` | runelite-client/src/main/java/net/runelite/client/plugins/worldhopper/ping/WindowsTcpInfoProbe.java:72-80 | on a Windows host with `fd` 5 and a throwing `getsockopt`, the code as written throws and the corrected probe returns null |

## Left out

- The Swing user interface is not modelled: the frame, the check boxes, the filter field and the cell renderers. The widget a method reads from (kind box, id spinner, rule field, selected row) is a method parameter.
- `ConfigManager` and `Text.fromCSV` / `Text.toCSV` are not modelled. A configuration entry is given already split into its items (a `seq<string>`). `loadStringSet` is modelled as the set of those items, in the constructor.
- `Devtools.VarInspector.Close`: does not model the `saveKeySet` / `saveStringSet` calls that write the sets back to the configuration. `VarKeys.SaveKeySet` models the encoding alone.
- `Devtools.VarInspector.OnVarbitChanged`: `client.getVarbitValue` and `client.setVarbitValue` are abstract functions `getBits` / `setBits` on one varp word. They are not bit-field extraction from the cache's varbit definitions.
- The iteration order of Java `HashSet` and `HashMultimap` is not modelled. It is an input: a sequence, or a nondeterministic choice in the loops.
- The varp-to-varbits index that `open` builds from the cache on the client thread is a parameter of `Devtools.VarInspector.Open`.
- `SwingUtilities.invokeLater` is not modelled: its task runs at once. Event-bus registration is also left out.
- `NameRules.MatchesRule`: lower-cases ASCII letters only, where `String.toLowerCase` also folds non-ASCII letters.
- `JavaLang.Lower`: lower-cases ASCII letters only; the two lines below follow from it.
- `Ping.IsWindows`: lower-cases ASCII letters only, for the same reason.
- `JavaLang.ParseDecimal`: accepts ASCII digits only, where `Integer.parseInt` also accepts other Unicode digits.
- A null rule set passed to `matchesAnyNameRule` is not representable: the fields are never null.
- `Devtools.VarInspector.OnVarClientIntChanged`: takes as a precondition that the VarClient map holds an `Integer` at the index; the source's cast would otherwise throw `ClassCastException`.
- `Devtools.VarInspector.OnVarClientStrChanged`: takes the same precondition for `String`.
- `Devtools.VarInspector.OnVarbitChanged`, `Devtools.VarInspector.SyncSnapshots` and `Devtools.VarInspector.Open`: assume the client's varp array keeps one fixed length, so the snapshots and `client.getVarps()` have equal lengths and the changed index is within them. The source copies only a prefix when the array is longer. It throws `ArrayIndexOutOfBoundsException` when the array is shorter or the index is out of range. Those cases are not modelled.
- The handlers take an open window as a precondition. In the source they are only registered while the window is open.
- The `ULONG` and `ULONG64` fields of `TCP_INFO_v0` are read as signed Java `int` and `long`, as the JNA mapping does.
- The `Ws2_32` JNA binding, the mechanics of JNA `Memory` and `Structure`, and the reflection in the static initialiser are not modelled. The calls' results are inputs.
- `getFdField` throwing while the class initialises is not modelled.
- `dumpFileDescriptor` and all logging are not modelled: they have no effect on results.
- The `bytesReturned` out-parameter of `WSAIoctl` and the `optLen` out-parameter of `getsockopt` are not modelled. The source ignores both values.

## Findings

| source | as written | input that shows it | evidently intended | confidence | as-written member | corrected member |
|---|---|---|---|---|---|---|
| runelite-client/src/main/java/net/runelite/client/plugins/worldhopper/ping/WindowsTcpInfoProbe.java:72-80 | `isWinsockStreamSocket` is called before the `try { … } catch (Throwable t)`, so an exception from `getsockopt` escapes `tryGetTcpInfoV0` | `os.name` starting with "Windows", a descriptor with no `handle` field and `fd` 5, and a `getsockopt` call that throws (for example, ws2_32 or JNA failing to load) | the method returns null and never throws (its documented result, and the catch-all around the rest of the native work) | medium, not executed | Ping.AsWrittenThrows | Ping.TryGetTcpInfoV0 |
