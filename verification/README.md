# BTF deduplication, CO-RE matching and packet paths: a verified model

This project models the parts of the repository whose correctness is least
obvious, and proves what each promises:

- `hashmap.dfy`: the growing chained hash map of libbpf.
- `btf_types.dfy`, `btf_compare.dfy`, `canon_map.dfy`, `dedup_state.dfy`,
  `dedup_equiv.dfy`, `dedup_merge.dfy`, `dedup_enums.dfy`, `dedup_result.dfy`,
  `btf_dedup.dfy`: the type passes of `btf__dedup`. Meaning is the unfolding of a
  type to every depth; an equivalence check finds the least bisimulation up to the
  canonical map that joins its two types, whether forward declarations are resolved
  or not, and what that assumes is then merged.
- `btf_strings.dfy`, `btf_object.dfy`: the string pass, and `btf__dedup` as a whole.
- `btf_layout.dfy`, `btf_record.dfy`: record sizes, the type section as bytes,
  compaction in place, and the descriptors that records stand for.
- `dump_order.dfy`, `dump_loops.dfy`, `dump_emit.dfy`, `btf_dump.dfy`: ordering
  types for printing, when that can be done, and printing as a trace of declarations.
- `core_btf.dfy`, `core_match.dfy`, `core_self_match.dfy`, `core_misleads.dfy`: CO-RE
  access specs, parsed and matched, also against their own type, and types that
  lead this astray.
- `field_relo.dfy`: the arithmetic of field relocations and the macro that reads
  bitfields with them.
- `core_field.dfy`, `core_layout.dfy`: from a matched spec through its relocations
  to the value read, and where paths lead in memory.
- `words.dfy`, `perf_ring.dfy`: masks, shifts and wrapping counters, and the perf
  ring-buffer reader.
- `prog_linfo.dfy`: line info of jited programs, split by function and searched.
- `packet_ring.dfy`, `packet_protocol.dfy`: the packet buffer of the kernel
  module, with its two users as atomic steps and interleaved.
- `packet_order.dfy`, `packet_rules.dfy`, `packet_overtaking.dfy`: the order of
  delivery when they are interleaved: exactly when it is kept, rules that keep it,
  and runs that break it.
- `checksum.dfy`: the incremental Internet checksum (section 3 of RFC 1624, over
  the sum of section 1 of RFC 1071).
- `vlan.dfy`: pushing, popping and parsing VLAN tags.
- `wrappers.dfy`: values that may be missing, and errors.

`dafny verify dfyconfig.toml` checks everything.

Where the code and its comments disagree, the model follows the code:

- `libbpf.c:3012` says enums are assumed unsigned; line 3013 gives 1, signed.
- `btf_dump.c:375-377` calls a link weak when a pointer and a named type are on
  the way; the members of an anonymous struct behind a pointer are nevertheless
  ordered as strong links, as the example above that rule asks.
- `parsing_helpers.h:12` promises host byte order; `parse_ethhdr_vlan` returns
  the protocol as it lies in memory.
- `bpf_core_read.h:46-47` says the bitfield macro gives the status of the probe
  read; it gives the value read.
- `read` in the kernel module computes a return value and returns the buffer
  size in every case.

What the source takes for granted is required: BTF ids are within the object and
at most 0x7fffffff, a FWD record has type 0, bitfields are declared with types
whose size is not 0 and, for the macro, 1, 2, 4 or 8 bytes, and records in the
perf ring are well formed. Slots of the packet buffer hold a whole payload only up
to 128 bytes, although `mymodule/common.h` pairs that slot size with payloads of
1024 bytes; what happens to the buffer after a longer one is not modelled.

## Model

| member | source | states |
|---|---|---|
| HashMaps.HashMap.Insert | eBPF_app/libbpf/src/hashmap.c:142-192 | under each of the four strategies the multiset of entries is the old one plus the new entry and minus the one handed back; a failed insert changes nothing; every entry stays in the bucket its hash selects and sz * 4 / 3 <= cap |
| HashMaps.HashMap.Grow | eBPF_app/libbpf/src/hashmap.c:88-116 | growing keeps the multiset of entries, puts each where its hash with one more bit says, and fails only when the bucket array cannot be allocated |
| HashMaps.GrowthSuffices | eBPF_app/libbpf/src/hashmap.c:82-95 | doubling a table that is at most 75% full leaves room for one more entry, so the bound holds in every reachable state |
| HashMaps.HashMap.FindEntry | eBPF_app/libbpf/src/hashmap.c:118-140 | the first entry of the key in its bucket, and nothing exactly if no entry of the whole table has the key |
| HashMaps.HashMap.Find | eBPF_app/libbpf/src/hashmap.c:194-206 | found exactly if some entry has the key, and then the value of one |
| HashMaps.HashMap.Delete | eBPF_app/libbpf/src/hashmap.c:208-229 | removes exactly one entry of the key, or reports that there is none |
| HashMaps.HashMap.KeyEntries | eBPF_app/libbpf/src/hashmap.h:162-168 | walking one bucket yields every value of the key as often as it was inserted, and no other value |
| HashMaps.HashMap.DictionaryInsert | eBPF_app/libbpf/src/hashmap.c:142-192 | without APPEND the table is a dictionary: ADD, SET and UPDATE act as on an abstract map |
| HashMaps.HashMap.DictionaryDelete | eBPF_app/libbpf/src/hashmap.c:208-229 | deleting removes the key from that abstract map |
| HashMaps.HashBits | eBPF_app/libbpf/src/hashmap.h:20-24 | the selected bucket number is below the number of buckets |
| BtfCompare.EqualFiledIsIdentity | eBPF_app/libbpf/src/btf.c:1734-1981 | for primitive and reference kinds the comparison used under a hash is equality of records |
| BtfCompare.LocallyEqualIsLabel | eBPF_app/libbpf/src/btf.c:2225-2300 | the checks that is_equiv makes before it recurses say exactly that two descriptors differ at most in the ids they refer to |
| BtfTypes.LabelByFields | eBPF_app/libbpf/src/btf.c:2225-2360 | field by field: descriptors look the same exactly if name, kind, flag, length, size and all that is behind the header agree, but for type ids |
| BtfTypes.AlikeByFields | eBPF_app/libbpf/src/btf.c:1223-1268 | types that mean the same agree in all fields but ids, and the ids in the same fields mean the same |
| BtfTypes.BisimilarIsAlike | eBPF_app/libbpf/src/btf.c:1223-1268 | any relation under which related types agree like that makes them mean the same: meaning is the greatest such relation |
| BtfCompare.StructHashByLabel | eBPF_app/libbpf/src/btf.c:1818-1832 | structs that differ only in the ids they refer to have one hash, so a duplicate is always among the candidates |
| CanonMap.LinkRoot | eBPF_app/libbpf/src/btf.c:2089-2104 | linking a root below another tree keeps the map a forest and moves exactly its own tree |
| CanonMap.Redirect | eBPF_app/libbpf/src/btf.c:2388-2432 | cutting an entry loose and hanging it below a root, as resolving a forward declaration does, keeps the map a forest |
| BtfDedup.Dedup.Resolve | eBPF_app/libbpf/src/btf.c:2099-2104 | terminates on a forest and returns the root |
| BtfDedup.Dedup.ResolveFwd | eBPF_app/libbpf/src/btf.c:2110-2124 | the struct or union that a forward declaration has been resolved to, if it has, and otherwise the type itself |
| DedupState.LinkCandidate | eBPF_app/libbpf/src/btf.c:1991-2072 | linking an unmapped type to a candidate keeps every invariant of the passes: forest, links that join types of one name and family, candidates that are representatives |
| DedupState.LinkStruct | eBPF_app/libbpf/src/btf.c:2456-2510 | so does giving a struct its representative, mapped before or not |
| DedupState.LinkForward | eBPF_app/libbpf/src/btf.c:2388-2432 | so does resolving a forward declaration |
| DedupState.FileNew | eBPF_app/libbpf/src/btf.c:1321-1325 | so does filing a new representative under its hash |
| DedupState.RewriteRef | eBPF_app/libbpf/src/btf.c:2548-2654 | overwriting a reference by its representative keeps the meaning of every type |
| BtfDedup.Dedup.HypotAdd | eBPF_app/libbpf/src/btf.c:1327-1342 | adds one entry to the hypothetical map and leaves strictly fewer open, which bounds the recursion |
| BtfDedup.Dedup.ClearHypot | eBPF_app/libbpf/src/btf.c:1344-1351 | clearing along the list clears the whole map |
| BtfDedup.Dedup.IsEquiv | eBPF_app/libbpf/src/btf.c:2225-2360 | in both FWD modes: on Equal the pairs recorded bear scrutiny (one declares the other, or they differ in ids only and what these name is recorded or has one root) and join the two types; every assignment of candidates that bears scrutiny and joins them includes what is recorded; it never says Different where there is one; it terminates |
| DedupEquiv.CheckPairIs | eBPF_app/libbpf/src/btf.c:2225-2300 | what is decided before recursing: equal exactly if one is the forward declaration of the other by name and announced kind, or a forward enum of its name, size and sign, or they are one primitive record; an error exactly for variables, sections and void of one name |
| DedupEquiv.DecidedFromNothing | eBPF_app/libbpf/src/btf.c:2225-2360 | from a cleared map, Equal leaves the least bisimulation that joins the two types, and Different means that there is none |
| DedupEquiv.UnitEquivalent | eBPF_app/libbpf/src/btf.c:2125-2223 | inside a compilation unit without duplicates, a type that no forward declaration can be reached from is equivalent to every type that means the same |
| DedupEquiv.BisimulationIsMeaning | eBPF_app/libbpf/src/btf.c:2225-2360 | types that a bisimulation joins mean the same, their unfoldings agreeing to every depth, where nothing is resolved or there is nothing to resolve |
| BtfDedup.Dedup.MergeHypot | eBPF_app/libbpf/src/btf.c:2388-2432 | merges all recorded pairs, each exactly as told: two trees become one exactly if one root is a forward declaration and the other is not, or the second is a mapped struct or union and the first has no place; under the root that is no forward declaration; no other tree changes; all invariants are kept |
| DedupMerge.LinkMerges | eBPF_app/libbpf/src/btf.c:2388-2432 | hanging one root below the other does that to every type of the two trees and to no other |
| DedupMerge.MergeResolves | eBPF_app/libbpf/src/btf.c:2388-2432 | after the merge every recorded forward declaration is resolved, and one that was not resolved before and that no other pair speaks of has one root with the struct or union recorded for it |
| DedupMerge.ResolvedElsewhere | eBPF_app/libbpf/src/btf.c:2388-2432 | without that it need not have: a forward declaration resolved before stays apart from a second struct of its name that it is recorded for |
| DedupMerge.StandInRoot | eBPF_app/libbpf/src/btf.c:2110-2124 | whatever the links, a type ends at one that may stand for it: a forward declaration at the struct or union its flag announces or at another declaration like it, a forward enum at one of its name, size and sign, a struct at one of its name and kind, all else at a type that differs in ids only |
| BtfDedup.Dedup.PrimType | eBPF_app/libbpf/src/btf.c:1991-2072 | maps the type to the first candidate that is the same record, or with FWD resolution one that the forward enum declares, or makes it a candidate; a full enum takes over the forward enums met before; refuses exactly an unknown kind |
| DedupEnums.EnumsNext | eBPF_app/libbpf/src/btf.c:2029-2052 | if all forward enums so far that have a definition are resolved to one, they still are after the next type, whichever of the two comes first |
| BtfDedup.Dedup.PrimTypes | eBPF_app/libbpf/src/btf.c:2074-2084 | after the pass every primitive type is mapped and all invariants hold; with FWD resolution every forward enum is defined that has a full enum of its name, size and sign |
| BtfDedup.Dedup.StructType | eBPF_app/libbpf/src/btf.c:2456-2510 | in both FWD modes: a struct without a place joins a representative that it is equivalent to, with all that this takes merged and no more, and represents itself exactly if there is none |
| BtfDedup.Dedup.StructTypes | eBPF_app/libbpf/src/btf.c:2512-2522 | the pass is a run of such steps; every struct and union is mapped; representatives of an object made of duplicate-free compilation units mean different things wherever no forward declaration is resolved in them |
| BtfDedup.Dedup.RefType | eBPF_app/libbpf/src/btf.c:2548-2654 | ends in a representative with its references rewritten to representatives, or reports a loop, and that only if a chain of reference types does not end; each entry marks one more type, so it terminates |
| BtfDedup.Dedup.RefTypes | eBPF_app/libbpf/src/btf.c:2656-2669 | after the pass every type is mapped and the references of reference types are representatives; it can succeed only if no cycle consists of reference types, and reports a loop only if one does |
| BtfDedup.Dedup.CompactTypes | eBPF_app/libbpf/src/btf.c:2682-2730 | on the index of types: the result is the representatives in order, and the reused map numbers them consecutively |
| BtfDedup.Dedup.RemapTypeId | eBPF_app/libbpf/src/btf.c:2738-2747 | the new id of the representative, or an error exactly if it has none |
| BtfDedup.Dedup.RemapTypes | eBPF_app/libbpf/src/btf.c:2852-2862 | never fails after the passes before it; field by field, the id in every header, array, member, parameter and section entry is the new id of what stood there, and every other field is as it was |
| BtfDedup.Dedup.Run | eBPF_app/libbpf/src/btf.c:1223-1268 | all passes: on success the records of the result are records of the input with every id in them renumbered, field by field, and those are ids of the result; every type has a representative that may stand for it; no two records but structs, unions, variables and sections are the same; forward enums are defined where they can be; where there is nothing to resolve all types mean the same, and none is there twice; but for index memory they succeed whenever all kinds are known, variables and sections are named by sections only, and no cycle consists of reference types, and never where a kind is unknown or such a cycle is there |
| DedupResult.DedupMeans | eBPF_app/libbpf/src/btf.c:1223-1268 | where forward declarations are not resolved, or there are none, each type's unfolding in the input equals, to every depth, that of its new id in the output |
| DedupResult.ResultFields | eBPF_app/libbpf/src/btf.c:2738-2862 | the record of a representative is the given one with all its ids renumbered, although the reference pass has rewritten some of them before |
| DedupResult.ResultNoCopies | eBPF_app/libbpf/src/btf.c:1223-1268 | in both FWD modes no two primitive or reference records of the output are the same |
| DedupResult.AllDistinct | eBPF_app/libbpf/src/btf.c:2512-2522 | with FWD resolution on, but nothing to resolve, no two struct or union representatives mean the same |
| DedupResult.DedupClosed | eBPF_app/libbpf/src/btf.c:2738-2862 | in both FWD modes every original id has a number in the output and every reference there is one |
| DedupResult.MeaningIsIdentity | eBPF_app/libbpf/src/btf.c:2548-2654 | representatives that mean the same are the same type, by induction along chains of reference types |
| DedupResult.DedupMinimal | eBPF_app/libbpf/src/btf.c:1223-1268 | no two types of the output mean the same when the input is made of compilation units without duplicates |
| DedupResult.SurvivorsAre | eBPF_app/libbpf/src/btf.c:2697-2711 | the survivors are exactly the representatives, in strictly increasing order |
| BtfStrings.LayoutAt | eBPF_app/libbpf/src/btf.c:1660-1701 | strings written one after the other are each found at the offset they were given |
| BtfStrings.QSort | eBPF_app/libbpf/src/btf.c:1537-1553 | sorting by either comparison gives an ordered permutation |
| BtfStrings.EmitGroups | eBPF_app/libbpf/src/btf.c:1660-1701 | of every group of equal strings one is written, exactly if some member is used, and all members get its offset |
| BtfStrings.StringIndex.MarkUsed | eBPF_app/libbpf/src/btf.c:1564-1579 | an offset is marked exactly if it is 0 or starts a string |
| BtfStrings.StringIndex.Rewrite | eBPF_app/libbpf/src/btf.c:1609-1722 | afterwards every used string lies in the new section once and the pointers are back in offset order, so that lookups go on working over the overwritten section |
| BtfStrings.StringIndex.Remap | eBPF_app/libbpf/src/btf.c:1581-1596 | the new offset has the old text, and offset 0 stays 0 |
| BtfObject.DedupStrings | eBPF_app/libbpf/src/btf.c:1609-1722 | for every type, the names of the type, its members, enumerators and parameters have in the new section the text they had, and every other field is equal; so for external references; the new section holds distinct referenced strings after the empty one; it fails exactly on a reference into the middle of a string |
| BtfObject.TextsByFields | eBPF_app/libbpf/src/btf.c:1440-1530 | the names the string pass goes through are the ones of the type, its members, enumerators and parameters |
| BtfObject.TextAlikeByFields | eBPF_app/libbpf/src/btf.c:1223-1268 | the same C type: all fields but ids agree with names read as text, and the ids in the same fields are the same C types |
| BtfObject.StringsThenTypes | eBPF_app/libbpf/src/btf.c:1223-1268 | moving names and then deduplicating types keeps each C type, names compared as text |
| BtfObject.Dedup | eBPF_app/libbpf/src/btf.c:1223-1268 | btf__dedup as a whole: every record of the result is field by field one of the object's with its texts kept and its ids renumbered, and every type has a new id whose record may stand for it; with FWD resolution forward enums are defined where an enum of that name is; where there is nothing to resolve every type is the same C type under its new id in the new string section, and no two types are the same C type any more if the units the object was made of had none; with the conditions of success |
| BtfObject.AlikeFromText | eBPF_app/libbpf/src/btf.c:1223-1268 | where no two strings are the same, types that look the same with names read as text also refer to the same strings, so that nothing the type passes tell apart is the same C type |
| BtfRecord.RoundTrip | eBPF_app/libbpf/src/btf.c:145-178 | the size computed from a header is the length of every record, and reading a record gives the descriptor it was written from |
| BtfLayout.Image.ParseTypeSec | eBPF_app/libbpf/src/btf.c:180-202 | indexes the records that the walk over the section meets and tells where the last one ends, or fails at an unknown kind, or reads beyond the memory |
| BtfLayout.WalkIsLayout | eBPF_app/libbpf/src/btf.c:180-202 | what has been indexed fills the section record by record exactly if the last record ends where the strings begin |
| BtfLayout.LayoutOfWalk | eBPF_app/libbpf/src/btf.c:180-202 | otherwise it is laid out up to the end of the last record, if that is in memory |
| BtfLayout.WalkFindsLayout | eBPF_app/libbpf/src/btf.c:180-202 | a section of consecutive records is walked record by record |
| BtfLayout.NextRecordIntact | eBPF_app/libbpf/src/btf.c:2697-2705 | when compaction reads a record its bytes are still those of the input |
| BtfLayout.CompactingStep | eBPF_app/libbpf/src/btf.c:2697-2711 | moving a record, or leaving one out, overwrites the start of the section by what is kept and nothing else |
| BtfLayout.Image.CompactTypes | eBPF_app/libbpf/src/btf.c:2682-2730 | in place, on bytes, wherever the last record ends: the kept records in order, then the string section; the index gives each kept record its old bytes; ids are numbered consecutively; it writes beyond the memory exactly if the kept records and the strings have no room there, which cannot be if the last record ended where the strings began |
| BtfLayout.StringsKept | eBPF_app/libbpf/src/btf.c:2724-2728 | the strings are unchanged wherever the kept records end before them |
| BtfRecord.CompactImageIsCompacted | eBPF_app/libbpf/src/btf.c:2682-2730 | the descriptors that the compacted bytes stand for are those of the representatives: the compaction of the bytes is the compaction of the types |
| BtfLayout.CompactImageParses | eBPF_app/libbpf/src/btf.c:2713-2730 | parsing the compacted section gives its index again |
| BtfDump.Dump.constructor | eBPF_app/libbpf/src/btf_dump.c:117-165 | a new dump is in order if every cycle of references passes through a struct or union |
| BtfDump.Dump.MarkReferenced | eBPF_app/libbpf/src/btf_dump.c:249-309 | a type is marked exactly if some type refers to it, field by field, other than as the result of a prototype; fails exactly on an unknown kind |
| BtfDump.MarksAre | eBPF_app/libbpf/src/btf_dump.c:249-309 | the references followed are the header word of pointers, modifiers, typedefs, functions and variables, both types of an array, and those of members, parameters and section entries |
| BtfDump.Dump.OrderType | eBPF_app/libbpf/src/btf_dump.c:403-544 | terminates when every cycle of references passes through a struct or union; on success all that the type needs complete is ordered, also through pointers to anonymous structs, and printing it in place comes to an end over enums that are ordered before |
| DumpOrder.EmbeddedFirst | eBPF_app/libbpf/src/btf_dump.c:330-408 | everything a definition cannot be complete without, through arrays, modifiers, typedefs, anonymous composites and pointers to these, is finished before it |
| DumpOrder.QueueOrder | eBPF_app/libbpf/src/btf_dump.c:403-544 | each queued definition comes after every queued one that it embeds |
| DumpOrder.QueuedOnce | eBPF_app/libbpf/src/btf_dump.c:403-544 | only a typedef can be in the queues twice |
| DumpOrder.SelfEmbeddingFails | eBPF_app/libbpf/src/btf_dump.c:421-427 | a type that embeds itself by value is never finished, so ordering it ends in an error |
| BtfDump.Dump.EmitType | eBPF_app/libbpf/src/btf_dump.c:612-753 | printing ends, leaves no type marked as in progress, never comes to an anonymous struct or union in a loop, and every name it reaches through pointers, enums included, is declared or is the one being defined |
| DumpEmit.NotItself | eBPF_app/libbpf/src/btf_dump.c:687-705 | a typedef printed in place does not come back to itself, so all it reaches is declared before it |
| BtfDump.Dump.EmitComposite | eBPF_app/libbpf/src/btf_dump.c:707-738 | a top-level definition is printed only after the forward declarations its members need |
| BtfDump.Dump.DumpType | eBPF_app/libbpf/src/btf_dump.c:190-229 | succeeds if all kinds are known and no struct or union that ordering comes to holds itself, and, where functions are only pointed at, only then; it prints each definition once, after all named types it embeds and with all it reaches declared, and never the loop warning; it defines its type if that has a name, or is an enum or forward declaration that nothing refers to, and prints no other enum without a name |
| DumpEmit.PrintedOnce | eBPF_app/libbpf/src/btf_dump.c:612-753 | over all dumps nothing is printed twice, and no typedef in two ways |
| BtfDump.EnumsAlone | eBPF_app/libbpf/src/btf_dump.c:484-488 | an enum is printed only if it has a name or nothing refers to it |
| DumpLoops.TameWillDo | eBPF_app/libbpf/src/btf_dump.c:403-544 | if no struct or union that ordering comes to holds itself, it enters no more of them inside one another than there are types, and meets none in progress but behind a pointer to its name |
| DumpLoops.ReadyIsTame | eBPF_app/libbpf/src/btf_dump.c:403-544 | what has been ordered comes to no struct or union that holds itself |
| DumpEmit.PrintedTypedefs | eBPF_app/libbpf/src/btf_dump.c:687-705 | a typedef printed in its own turn is legal C where it stands; one printed ahead of it, for something declared with it, exactly if it does not name an array or all that the elements embed has been printed |
| CoreBtf.SkipModsAndTypedefs | eBPF_app/libbpf/src/libbpf.c:1044-1058 | ends at the first type that is no modifier or typedef |
| CoreBtf.SkipPeels | eBPF_app/libbpf/src/libbpf.c:1044-1058 | that type, and no other, is where the chain of const, volatile, restrict and typedef ends |
| CoreBtf.ResolveSize | eBPF_app/libbpf/src/btf.c:229-279 | the loop computes the size within 32 steps or fails as its 32-bit checks say |
| CoreBtf.SizeIsTrue | eBPF_app/libbpf/src/btf.c:229-279 | those checks are exact: what is computed is the size, and a size that is not 0 and fits 32 bits is computed |
| CoreBtf.FlavorIgnored | eBPF_app/libbpf/src/libbpf.c:2617-2639 | a flavor suffix does not change the essential name |
| CoreBtf.BaseIsEssential | eBPF_app/libbpf/src/libbpf.c:2617-2639 | every name has one base: itself, if no three underscores stand between other characters in it, else what is before the last such three |
| CoreBtf.BasesDecide | eBPF_app/libbpf/src/libbpf.c:2742-2756 | two enums, or two forward declarations, fit exactly if one has no name or both have one base |
| CoreBtf.OffsetsDecide | eBPF_app/libbpf/src/libbpf.c:2757-2762 | two integers fit exactly if neither starts within its storage, whatever size and sign |
| CoreBtf.FieldsAreCompat | eBPF_app/libbpf/src/libbpf.c:2721-2772 | terminates, and decides the recursive compatibility relation |
| CoreBtf.SelfCompatible | eBPF_app/libbpf/src/libbpf.c:2721-2772 | a field is compatible with itself exactly if it is of a kind that can be relocated |
| CoreBtf.CompatibleSymmetric | eBPF_app/libbpf/src/libbpf.c:2721-2772 | compatibility does not depend on which side is the program's |
| CoreMatch.SpecParse | eBPF_app/libbpf/src/libbpf.c:2515-2615 | the accessors and the bit offset of the path in 32 bits, or the error of its first bad step; a negative index counts as the word it is, and makes the code read before the first member exactly where it comes to a struct or union |
| CoreLayout.RootOffset | eBPF_app/libbpf/src/libbpf.c:2552-2560 | the first index moves by 8 times the size of the root type, in bits |
| CoreLayout.ElementOffset | eBPF_app/libbpf/src/libbpf.c:2592-2606 | element i of an array lies 8 times i times the size of an element behind it |
| CoreLayout.ElementInMemory | eBPF_app/libbpf/src/libbpf.c:2592-2606 | in memory, the bits at that offset are the ones that loading element i reads |
| CoreLayout.MemberOffsetIs | eBPF_app/libbpf/src/libbpf.c:2569-2591 | a member lies at its own bit offset behind its struct: the offset word, or its low 24 bits, under the size of a bitfield, if the kind flag is set |
| CoreMatch.NaturalsStay | eBPF_app/libbpf/src/libbpf.c:2570-2577 | without negative indices it never does |
| CoreMisleads.NegativeIndexStrays | eBPF_app/libbpf/src/libbpf.c:2570-2577 | member -1 of a struct does |
| CoreMatch.Target.MatchMember | eBPF_app/libbpf/src/libbpf.c:2790-2860 | the pushes and pops on the shared spec do what the search says, left-over steps included; at most 64 steps are ever pushed |
| CoreMatch.SpecMatch | eBPF_app/libbpf/src/libbpf.c:2866-2932 | the loop over the local accessors fills the target spec as the recursive search says |
| CoreMatch.MatchIsFind | eBPF_app/libbpf/src/libbpf.c:2790-2860 | the search leaves the spec as it was if there is no field of the name, gives up if there is no room, and otherwise ends with the first field of the name exactly if the types of that one fit |
| CoreMatch.UniqueOrNothing | eBPF_app/libbpf/src/libbpf.c:2838-2853 | if they do not fit and no other field has the name there is no match |
| CoreMatch.MatchIsParsed | eBPF_app/libbpf/src/libbpf.c:2866-2932 | where the first field of each name fits, a match gives the spec that parsing its own raw path gives: same accessors, bit offset the sum along the path, names and indices those of the local spec |
| CoreMatch.UniqueNamesFit | eBPF_app/libbpf/src/libbpf.c:2866-2932 | where no name occurs twice, a match has found fields that are the first of their names |
| CoreSelfMatch.SelfMatch | eBPF_app/libbpf/src/libbpf.c:2515-2615 | a parsed spec matched against its own type gives back its accessors, raw path and bit offset |
| CoreMisleads.SecondNameMisleads | eBPF_app/libbpf/src/libbpf.c:2838-2853 | where the first field of a name does not fit, the raw path of a match need not be a path at all |
| CoreMisleads.LeftOverMayLead | eBPF_app/libbpf/src/libbpf.c:2838-2853 | or it may by chance be one, with the accessors and the offset of the match |
| FieldRelo.FindWindow | eBPF_app/libbpf/src/libbpf.c:2973-2987 | the smallest aligned load that contains the field, of the declared size or that doubled until it is 8 or more; too big exactly if one of the last size does not contain it, whatever the declared size |
| FieldRelo.TriedLoads | eBPF_app/libbpf/src/libbpf.c:2977-2987 | for a declared size of 1, 2, 4 or 8 bytes these are the loads from that size up |
| FieldRelo.CalcFieldRelo | eBPF_app/libbpf/src/libbpf.c:2934-3039 | each kind of relocation for array elements and members, errors included, all about one load |
| FieldRelo.WindowIsUnique | eBPF_app/libbpf/src/libbpf.c:2973-2987 | relocations computed one by one agree on the load |
| FieldRelo.ReadIsField | eBPF_app/libbpf/src/bpf_core_read.h:49-59 | shifting the loaded word left and right gives exactly the field, unsigned or sign-extended |
| FieldRelo.ReadBitfieldProbed | eBPF_app/libbpf/src/bpf_core_read.h:49-59 | with its five relocations the macro reads the value of the member, or there is no load for it |
| FieldRelo.EnumsAreSigned | eBPF_app/libbpf/src/libbpf.c:3011-3016 | the unsigned value of an enum member, bitfield or not, comes back exactly if it is 64 bits wide or its top bit is clear; otherwise it is read as negative |
| CoreField.Access | eBPF_app/libbpf/src/libbpf.c:2939-2970 | what a relocation is about is the last accessor of the spec: an element's size, or a member's size, bitfield, base type and sign |
| CoreField.MatchLeads | eBPF_app/libbpf/src/libbpf.c:2866-2932 | a matched spec of a field is a path in the target with the local names and indices, down to a member |
| CoreField.FieldIsValue | eBPF_app/libbpf/src/bpf_core_read.h:49-59 | what the macro reads for such a spec is the value of that member at the spec's bit offset |
| CoreLayout.SignIsEncoded | eBPF_app/libbpf/src/libbpf.c:3011-3016 | the sign of an integer is the low bit of its encoding, which is the high byte of the word behind the record |
| CoreField.ReadMatched | eBPF_app/libbpf/src/libbpf.c:2866-3039 | matching a local field and reading it with the five relocations gives the value of the target's field of that path, or there is no load for it |
| Words.RingPosition | eBPF_app/libbpf/src/libbpf.c:5732-5733 | masking with a power of two less one finds the position although the counter wraps at 64 bits |
| Words.PowerOfTwoTest | eBPF_app/libbpf/src/libbpf.c:5942-5946 | n & (n - 1) is 0 exactly for the powers of two |
| PerfRing.NextRecord | eBPF_app/libbpf/src/libbpf.c:5732-5752 | at a record boundary the header does not wrap and its size and record are those of the stream |
| PerfRing.SizeIsStored | eBPF_app/libbpf/src/libbpf.c:5732-5752 | the size of a record is the last word of its header, after a 32-bit type and 16 bits of flags |
| PerfRing.Ring.Reassemble | eBPF_app/libbpf/src/libbpf.c:5736-5753 | a record that goes round the end is put together byte for byte |
| PerfRing.Ring.ReadSimple | eBPF_app/libbpf/src/libbpf.c:5719-5765 | the callback gets the waiting records once each, whole and in order, up to where it stops; the tail rests on the next record's boundary, and head and tail on multiples of a header |
| PerfRing.TakenWhileContinuing | eBPF_app/libbpf/src/libbpf.c:5755-5760 | reading goes on exactly while the callback says so and records are left |
| ProgLinfo.LineInfo.DissectJitedFunc | eBPF_app/libbpf/src/bpf_prog_linfo.c:22-86 | succeeds exactly if the records can be split into one segment per function, and gives that split |
| ProgLinfo.StartsAgree | eBPF_app/libbpf/src/bpf_prog_linfo.c:46-74 | there is at most one such split |
| ProgLinfo.Partition | eBPF_app/libbpf/src/bpf_prog_linfo.c:46-83 | every record belongs to exactly one function |
| ProgLinfo.CheckedSegment | eBPF_app/libbpf/src/bpf_prog_linfo.c:52-74 | the records of every function but the last increase strictly, and lie within the function exactly unless it starts at 0 and ends with the very last address |
| ProgLinfo.WithinLength | eBPF_app/libbpf/src/bpf_prog_linfo.c:56-59 | the length check lets a record pass exactly if it lies within its function or the computed length wraps to 0, and one before the function only if that is nearly as long as the address space, or it is right before |
| ProgLinfo.LengthWraps | eBPF_app/libbpf/src/bpf_prog_linfo.c:56-59 | there is a function of that kind, whose length is computed as 0 |
| ProgLinfo.LineInfo.New | eBPF_app/libbpf/src/bpf_prog_linfo.c:100-178 | nothing without line info or with records too short to search, nothing if jited line info is there but cannot be split; without it, or with records too short for an address, an object that has none |
| ProgLinfo.LineInfo.LfindAddrFunc | eBPF_app/libbpf/src/bpf_prog_linfo.c:180-216 | the record before the first one past the address, not counting the skipped ones, or nothing if the first is past it |
| ProgLinfo.LooksUpRightIff | eBPF_app/libbpf/src/bpf_prog_linfo.c:180-246 | every lookup, whatever is skipped, gives the last record at or before the address, or nothing only if there is none, exactly if the records never fall |
| ProgLinfo.LookupsAreRight | eBPF_app/libbpf/src/bpf_prog_linfo.c:180-216 | all lookups in a program, in every function of it, are right exactly if the addresses of the last function never fall |
| ProgLinfo.LastSegmentIsUnchecked | eBPF_app/libbpf/src/bpf_prog_linfo.c:46-83 | they may fall: a program of one function for which some lookup is wrong |
| ProgLinfo.LineInfo.Lfind | eBPF_app/libbpf/src/bpf_prog_linfo.c:218-246 | the same by instruction offset over all records |
| PacketRing.Module.RxhPacketIn | mymodule/kernel_module/intercept-module.c:193-279 | a wanted packet whose payload fits a slot is appended to the queue, and dropped exactly when all slots are taken; count_pkt is delivered plus buffered plus overflow |
| PacketRing.Module.Scan | mymodule/kernel_module/intercept-module.c:116-139 | copies the oldest packets in order, at most a page of them, and notes their slots |
| PacketRing.Module.Read | mymodule/kernel_module/intercept-module.c:98-155 | a successful read takes the oldest min(32, n) packets in order; a failed one changes nothing; the result is the buffer size whatever happens |
| PacketRing.HeldQueueIsUnique | mymodule/kernel_module/intercept-module.c:112-152 | slots and index stand for one queue only |
| PacketProtocol.NextInv | mymodule/kernel_module/intercept-module.c:112-152 | every step of the handler or of read, however interleaved, keeps the invariant |
| PacketProtocol.ExactlyOnce | mymodule/kernel_module/intercept-module.c:112-152 | in every reachable state each accepted packet is delivered once or still buffered, and each arrival is accepted, dropped or in the handler's hands |
| PacketProtocol.FailedCopyLosesNothing | mymodule/kernel_module/intercept-module.c:142-146 | a failed copy to user space changes no packet |
| PacketProtocol.ClearErasesDeliveredOnly | mymodule/kernel_module/intercept-module.c:147-152 | clearing erases only what has been delivered, whatever arrived since the scan |
| PacketOrder.ReadOrder | mymodule/kernel_module/intercept-module.c:112-152 | a read keeps arrival order exactly if, neither when it starts nor when a packet is marked during it, one that it takes comes to lie before an older one or after an older one was missed |
| PacketOrder.RunOrder | mymodule/kernel_module/intercept-module.c:112-152 | over every run, whatever the interleaving, packets reach user space in the order they arrived exactly if no read is crossed like that |
| PacketRules.AdvanceOrder | mymodule/kernel_module/intercept-module.c:246-254 | advancing the index keeps the slots in order of arrival exactly if it does not come to rest between buffered packets it has passed by and others ahead |
| PacketRules.ObedientInOrder | mymodule/kernel_module/intercept-module.c:112-152 | runs in which that holds, no read starts between a mark and the advance of the index, and packets are marked behind a running scan, deliver in order |
| PacketRules.UnsearchedIsStraight | mymodule/kernel_module/intercept-module.c:242-259 | the rule on the index holds if no packet has to search for its slot |
| PacketOvertaking.EachRuleIsNeeded | mymodule/kernel_module/intercept-module.c:112-152 | for each of the three rules there is a run that obeys the other two and delivers out of order |
| PacketOvertaking.MarkedAheadOvertakes | mymodule/kernel_module/intercept-module.c:113-132 | a packet stored at the slot where a scan has just begun is delivered before an older one |
| PacketOvertaking.StartedLateOvertakes | mymodule/kernel_module/intercept-module.c:246-254 | so is one that has been marked when a scan starts, before the index is advanced |
| PacketOvertaking.SearchOvertakes | mymodule/kernel_module/intercept-module.c:242-259 | with the buffer full, a packet that finds a slot freed during its search is delivered before older ones once the next packet has passed over these |
| Checksum.Csum16Add | eBPF_app/eBPF_measure/ebpf_measure_user.c:110-116 | the sum with its carry added back is one's complement addition |
| Checksum.CsumReplace2 | eBPF_app/eBPF_measure/ebpf_measure_user.c:118-126 | equation 3 in section 3 of RFC 1624, through the pointer |
| Checksum.SumIsFoldedTotal | eBPF_app/eBPF_measure/ebpf_measure_user.c:110-116 | the one's complement sum of words is their total modulo 0xffff, with 0 only for all-zero words |
| Checksum.UpdateIsRecomputed | eBPF_app/eBPF_measure/ebpf_measure_user.c:118-126 | the updated checksum is the one computed from scratch exactly if the new words are not all zero |
| Checksum.ReplaceWord | eBPF_app/eBPF_measure/ebpf_measure_user.c:123-126 | after changing a word and updating, the header is correct and verifies exactly if its other words are not all zero |
| Vlan.XdpMd.TagPop | eBPF_app/common/rewrite_helpers.h:22-64 | removes exactly the outermost tag and returns it, or leaves the frame alone exactly if there is none |
| Vlan.XdpMd.TagPush | eBPF_app/common/rewrite_helpers.h:69-108 | puts the tag behind the addresses although old and new header overlap, or fails exactly without headroom |
| Vlan.PopAfterPush | eBPF_app/common/rewrite_helpers.h:22-108 | popping a tag just pushed gives back every byte, and the 16-bit tag |
| Vlan.PushAfterPop | eBPF_app/common/rewrite_helpers.h:22-108 | pushing back a popped tag restores the frame exactly if it was an 802.1Q tag |
| Vlan.TaggedInBytes | eBPF_app/common/parsing_helpers.h:68-72 | a frame has a tag exactly if the bytes behind the addresses are 81 00 or 88 a8 |
| Vlan.ParseEthhdrVlan | eBPF_app/common/parsing_helpers.h:79-122 | skips at most two whole tags, collects their ids, and returns the protocol behind them and where it ends |
| Vlan.ParsedAfterPush | eBPF_app/common/parsing_helpers.h:79-122 | after a push the same protocol is found 4 bytes further on with the pushed id first, exactly if at most one tag was skipped before |
| Vlan.MaskedId | eBPF_app/common/parsing_helpers.h:113-115 | the collected id is the low 12 bits of the tag |

## Left out

- Meaning of dedup where a forward declaration is resolved: the resolution goes by name and may join types that C keeps apart (`btf.c:2175-2181`). There it is proved which checks succeed, what each merges, what a type may be mapped to, and the fields of the result.
- DedupMerge.MergeResolves: that a recorded forward declaration and its struct become one asks that it was not resolved before and that no other recorded pair speaks of it; otherwise it is false, see DedupMerge.ResolvedElsewhere.
- BtfDedup.Dedup.IsEquiv: where the check ends in an error, on variables and sections, it is not said whether the types are equivalent.
- Arrays and chains of the hash map, the dedup state, the string index, the dump state and the type index are sequence-valued fields: sharing of memory between pointers is not captured there. Compaction is also modelled on an array of bytes.
- Order of candidates under one hash: a candidate loop draws all entries of the key first, in any order the table yields them.
- qsort and bsearch: library functions; sorting stands as an insertion sort with the same comparison.
- Allocation failure, except for a bucket array beyond 2^60 entries; freeing; `hashmap__clear`.
- Parsing of the BTF header, of ELF files and of `.BTF.ext` beyond its string references.
- HashMaps.HashMap.Insert: hash values are natural numbers reduced modulo 2^64, so the signedness of `long` hashes is not modelled.
- CoreMatch.SpecParse: starts from the list of ints that sscanf reads off the accessor string.
- CoreMatch.MatchIsParsed: one way only, as the other is false, see CoreMisleads.LeftOverMayLead.
- CoreSelfMatch.SelfMatch: asks for room for the anonymous nesting within the 64 steps, for elements below 2 GiB (their size passes through an int), and for a path that does not end at an anonymous member.
- FieldRelo.ReadBitfieldProbed: little-endian, and without 128-bit bitfield types.
- Finding relocation candidates by name, and patching instructions.
- PerfRing.Ring.ReadSimple: the kernel stores records between calls, not during one; memory ordering of head and tail is left out.
- BtfDedup.Dedup.Run: that the candidate index never runs out of memory is not derived from the number of types.
- BtfLayout.Image.CompactTypes: asks that the last record and the strings lie in memory, which the parser does not check.
- PacketRing.Module.RxhPacketIn: promises nothing about the buffer after a payload longer than the 128 bytes of a slot has found one, which runs into the slots behind it.
- PacketProtocol.RunInv: one handler and one reader on sequentially consistent memory; a packet's bytes are one value; the log of arrival times is left out.
- BtfDump.Dump.OrderType: asks that every cycle of references passes through a struct or union, without which the code recurses forever.
- BtfDump.Dump.DumpType: that success means no loop is stated where no member and not the type itself is a function used by value, which C does not have; a function type ordered before through a pointer is not looked into again.
- DumpEmit.PrintedTypedefs: arrays of structs that are only pointed at inside a type are not looked at.
- BtfDump.Dump.EmitType: the text of declarations (names made unique, padding, spacing) is not modelled.
- Vlan.XdpMd.AdjustHead: stands for the kernel's helper, which is not part of the repository.
- The direct-read variant of the bitfield macro, epoll and mmap set-up, the user-space programs and the plotting scripts: input and output, or nothing hard.
