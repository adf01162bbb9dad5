# QDox field references, modelled in Dafny

QDox reads Java source and builds a model of its classes. When an annotation
value is a dotted name such as `a.b.C.FIELD`, QDox records it as a
`FieldRef`: an annotation value that can later be resolved to the field it
denotes. This project models that class.

It has two halves.

- **Splitting the name.** The constructor builds a separator table for the
  name: -1, then the positions of the dots, then the length of the name.
  `getNamePart`, `getNamePrefix` and `getPartCount` index into it.
- **Resolving the name.** `getField` is a memoised lookup in four tiers:
  1. the declaring class's own fields, tried against every segment;
  2. the class library: the shortest prefix it recognises commits the split;
  3. the declaring source's static imports;
  4. an optional type resolver, tried on each prefix in turn until a
     resolved class declares a later segment.

  It caches the field found and the split position in `field` and
  `fieldIndex`. `getClassPart`, `getFieldPart` and `toString` run the lookup
  and then read that cache.

The project has three files.

- `strings.dfy` (module `JavaStrings`) holds the parts of `String` and
  `StringTokenizer` that the class uses:
  - `indexOf`, `lastIndexOf`, `startsWith` and `trim`;
  - the positions of the dots in a string;
  - the tokenizer's token count, which skips empty tokens.
- `javamodel.dfy` (module `JavaModel`) holds the collaborators, as oracles.
  - A class has its fields in declaration order, an interface flag and the
    import strings of its source.
  - `getFieldByName` is the first declared field with the name.
  - The class library is a pair of functions: `hasClassReference` and
    `getJavaClass`.
  - The type resolver is a function from a name to a class or none.
- `fieldref.dfy` (module `FieldRefs`) holds the model of the class itself.
  - `FieldRef` is a Dafny class. Its mutable state is `declaringClass`,
    `classLibrary`, `field` and `fieldIndex`.
  - Each tier is specified by a pure function: `FieldIn`, `LibraryTier`,
    `ImportScan` and `ResolverTier`.
  - `Resolve` composes the tiers.
  - The methods `ResolveField`, `ScanLibrary`, `ScanImports` and
    `ScanResolver` run the Java code's loops. Each is proved equal to its
    tier's function.
  - `GetField` runs those loops in the Java code's order. It is proved to
    cache exactly what `Resolve` computes from the old state.
  - `ClassPart`, `FieldPart` and `ToString` call `GetField` and then read
    the cache.
  - Lemmas state what the tiers promise.

Some behaviours of the code are easy to misread, and the model keeps them
as written.

- **Later tiers after a failed tier 2.** One might expect the lookup to end
  with no field once tier 2 has committed to a prefix whose class lacks the
  field. In the code, the static-import tier still runs after that. So does
  the type-resolver tier, whenever a type resolver is present.
- **Tier 4 keeps scanning.** One might expect tier 4 to stop at the first
  prefix the resolver turns into a class. The code goes on to later prefixes
  when that class lacks the field. `fieldIndex` grows by one for every prefix
  that resolves, so after tier 4 it counts resolved prefixes rather than
  marking the split (`ResolverTierCount`).
- **Failure is not memoised.** A lookup that ends with no field is not
  cached. The code re-runs tier 4 on every later call, and the index keeps
  growing (`ResolutionMemoised`).
- **Wildcard static imports.** A wildcard static import does not supply the
  field named by the first segment. The code looks up a field literally
  named `*` on the imported class (`WildcardImportLooksUpStar`). Imports are
  scanned in declaration order, with no preference between wildcard and
  single imports.
- **Tier 1 tries every segment.** Tier 1 does not only try the first
  segment. It tries every segment against the declaring class.
- **Class part after tiers 1 and 3.** After a hit in tier 1, `fieldIndex`
  is 0. The same holds after a hit in tier 3 when tier 2 committed to
  nothing. `getClassPart` then takes `substring(0, -1)`, which throws, so the
  model's `ClassPart` requires a split at a real dot.
- **Class part after a tier-2 commit.** Suppose tier 2 committed on prefix j
  and found no field there, and then tier 3 found one. The index stays at
  j + 1, so `getClassPart` returns prefix j. That names the library's class,
  not the imported one (`ImportAfterCommitSplit`).

Java exceptions are modelled as preconditions. `Resolvable` states when
`getField` raises none:

- a type resolver is present whenever tier 4 is reached with at least one
  prefix to try;
- `getNamePrefix(0)` is called only on a name with at least one segment;
- `substring(7, lastIndexOf('.'))` is called only on an import whose last dot
  is at index 7 or later.

`null` becomes `None`.

## Model

| member | source | states |
|---|---|---|
| JavaStrings.IndexOf | src/main/java/com/thoughtworks/qdox/model/expression/FieldRef.java:65 | the result is the first position at or after `from` holding the character, or -1 exactly when no later position holds it |
| JavaStrings.LastIndexOf | src/main/java/com/thoughtworks/qdox/model/expression/FieldRef.java:216 | the result is -1 or a position holding the character, and no later position holds it |
| JavaStrings.LeadingTrimmed | src/main/java/com/thoughtworks/qdox/model/expression/FieldRef.java:219 | `trim` skips exactly the leading characters whose code is at most a space |
| JavaStrings.TrailingKept | src/main/java/com/thoughtworks/qdox/model/expression/FieldRef.java:219 | `trim` drops exactly the trailing characters whose code is at most a space |
| JavaStrings.DotsSpec | src/main/java/com/thoughtworks/qdox/model/expression/FieldRef.java:63-66 | the dot list holds exactly the positions of the dots of the name, in increasing order |
| JavaStrings.TokensBound | src/main/java/com/thoughtworks/qdox/model/expression/FieldRef.java:59-60 | the tokenizer never counts more tokens than dots plus one, so the table's middle entries all exist |
| JavaStrings.TokensOfWellFormed | src/main/java/com/thoughtworks/qdox/model/expression/FieldRef.java:59 | a name with no leading, trailing or doubled dot has exactly one token more than it has dots |
| JavaStrings.NextDot | src/main/java/com/thoughtworks/qdox/model/expression/FieldRef.java:65 | searching for a dot just past one dot finds the next dot, so the loop fills the table with consecutive dot positions |
| JavaModel.FieldByName | src/main/java/com/thoughtworks/qdox/model/expression/FieldRef.java:167 | a field found is a declared field of that class, with the name asked for |
| JavaModel.FirstNamedIsFirst | src/main/java/com/thoughtworks/qdox/model/expression/FieldRef.java:221 | among fields sharing a name the first declared is found, and none is found only when no field has the name |
| FieldRefs.PartTableShape | src/main/java/com/thoughtworks/qdox/model/expression/FieldRef.java:59-68 | the table has one entry more than the token count; it starts at -1, ends at the name's length and increases strictly; every middle entry is a dot's position |
| FieldRefs.BuildParts | src/main/java/com/thoughtworks/qdox/model/expression/FieldRef.java:59-68 | the constructor's loop over an array produces exactly the separator table of the name |
| FieldRefs.FieldRef.constructor | src/main/java/com/thoughtworks/qdox/model/expression/FieldRef.java:55-69 | a new reference holds the name and its separator table; it has no declaring class, no library, no resolver and no field, and its index is -1 |
| FieldRefs.FieldRef.WithResolver | src/main/java/com/thoughtworks/qdox/model/expression/FieldRef.java:76-79 | the same as the plain constructor, but keeping the given type resolver |
| FieldRefs.FieldRef.SetDeclaringClass | src/main/java/com/thoughtworks/qdox/model/expression/FieldRef.java:127-130 | sets the declaring class and changes nothing else |
| FieldRefs.FieldRef.SetClassLibrary | src/main/java/com/thoughtworks/qdox/model/expression/FieldRef.java:132-135 | sets the class library and changes nothing else |
| FieldRefs.FieldRef.PartCount | src/main/java/com/thoughtworks/qdox/model/expression/FieldRef.java:96-99 | the number of parts is the tokenizer's count of non-empty segments |
| FieldRefs.FieldRef.FirstPrefix | src/main/java/com/thoughtworks/qdox/model/expression/FieldRef.java:86-94 | prefix 0 equals part 0 |
| FieldRefs.FieldRef.PrefixExtension | src/main/java/com/thoughtworks/qdox/model/expression/FieldRef.java:86-94 | prefix i, a dot and part i + 1 make prefix i + 1 |
| FieldRefs.FieldRef.FullPrefix | src/main/java/com/thoughtworks/qdox/model/expression/FieldRef.java:86-89 | the longest prefix is the whole name |
| FieldRefs.FieldRef.JoinPrefix | src/main/java/com/thoughtworks/qdox/model/expression/FieldRef.java:86-94 | joining parts 0..k with dots gives prefix k |
| FieldRefs.FieldRef.JoinParts | src/main/java/com/thoughtworks/qdox/model/expression/FieldRef.java:91-99 | joining all parts with dots gives back the name, whenever there is at least one part |
| FieldRefs.FieldRef.WellFormedTable | src/main/java/com/thoughtworks/qdox/model/expression/FieldRef.java:55-69 | for a well-formed name with d dots there are d + 1 parts, and the table is -1, every dot position, then the length |
| FieldRefs.FieldRef.PartHasNoDot | src/main/java/com/thoughtworks/qdox/model/expression/FieldRef.java:91-94 | no part of a well-formed name contains a dot |
| FieldRefs.FieldRef.FieldIn | src/main/java/com/thoughtworks/qdox/model/expression/FieldRef.java:161-176 | a field found is one of the searched class's own fields; no other class is consulted |
| FieldRefs.FieldRef.FieldInFindsFirst | src/main/java/com/thoughtworks/qdox/model/expression/FieldRef.java:161-176 | the search returns the class's field for the first segment in the range that the class declares |
| FieldRefs.FieldRef.FieldInFromSegment | src/main/java/com/thoughtworks/qdox/model/expression/FieldRef.java:161-176 | a field found is the one the class declares for some segment in the range, so the search returns none when no segment matches or the range is empty |
| FieldRefs.FieldRef.FieldInNone | src/main/java/com/thoughtworks/qdox/model/expression/FieldRef.java:161-176 | the search finds nothing only when the class declares none of the segments in the range |
| FieldRefs.FieldRef.ResolveField | src/main/java/com/thoughtworks/qdox/model/expression/FieldRef.java:161-176 | the loop with its early exit returns exactly the specified single-class search |
| FieldRefs.FieldRef.FirstReference | src/main/java/com/thoughtworks/qdox/model/expression/FieldRef.java:191-202 | prefixes are tried from shortest to longest: the result is recognised by the library and no shorter prefix is; none means no prefix is recognised |
| FieldRefs.FieldRef.LibraryTierCommits | src/main/java/com/thoughtworks/qdox/model/expression/FieldRef.java:191-202 | the first recognised prefix commits the split at j + 1, and no longer prefix affects the outcome, even when the field search fails |
| FieldRefs.FieldRef.ScanLibrary | src/main/java/com/thoughtworks/qdox/model/expression/FieldRef.java:191-202 | the tier-2 loop computes the class-library tier |
| FieldRefs.FieldRef.ImportScanFindsFirst | src/main/java/com/thoughtworks/qdox/model/expression/FieldRef.java:212-229 | the import scan returns the field of the first import in declaration order that contributes one |
| FieldRefs.FieldRef.ImportScanFromImport | src/main/java/com/thoughtworks/qdox/model/expression/FieldRef.java:212-229 | a field found is the one some import contributes, so the scan returns none when no import is accepted |
| FieldRefs.FieldRef.ImportScanNone | src/main/java/com/thoughtworks/qdox/model/expression/FieldRef.java:212-229 | the import scan finds nothing only when no import contributes a field |
| FieldRefs.FieldRef.ImportScanStep | src/main/java/com/thoughtworks/qdox/model/expression/FieldRef.java:212-229 | one import is examined per step: the scan stops at an accepted import and otherwise continues with the next; a safe scan stays safe |
| FieldRefs.FieldRef.NonStaticImportsIgnored | src/main/java/com/thoughtworks/qdox/model/expression/FieldRef.java:214 | only imports starting with "static" affect the scan |
| FieldRefs.FieldRef.WildcardImportLooksUpStar | src/main/java/com/thoughtworks/qdox/model/expression/FieldRef.java:216-221 | a wildcard import can contribute only a field named `*` |
| FieldRefs.FieldRef.ScanImports | src/main/java/com/thoughtworks/qdox/model/expression/FieldRef.java:206-231 | the tier-3 loop computes the import scan |
| FieldRefs.FieldRef.FirstResolverHit | src/main/java/com/thoughtworks/qdox/model/expression/FieldRef.java:236-246 | a hit is a prefix that the resolver turns into a class declaring one of the later segments |
| FieldRefs.FieldRef.FirstResolverHitMisses | src/main/java/com/thoughtworks/qdox/model/expression/FieldRef.java:236-246 | every prefix before the first hit is passed over; with no hit, every prefix is |
| FieldRefs.FieldRef.ResolverTierHit | src/main/java/com/thoughtworks/qdox/model/expression/FieldRef.java:236-246 | tier 4 moves past resolved classes that lack the field; it returns the field of the first prefix whose class declares a later segment |
| FieldRefs.FieldRef.ResolverTierMiss | src/main/java/com/thoughtworks/qdox/model/expression/FieldRef.java:236-246 | tier 4 finds nothing when every prefix is passed over |
| FieldRefs.FieldRef.ResolverTierCount | src/main/java/com/thoughtworks/qdox/model/expression/FieldRef.java:236-246 | the index never shrinks. A miss bumps it once per prefix that resolves to a class. A hit bumps it once per such prefix up to and including the hit |
| FieldRefs.FieldRef.ResolverTierShift | src/main/java/com/thoughtworks/qdox/model/expression/FieldRef.java:236-246 | the field tier 4 finds does not depend on the starting index, and the index moves by the same amount |
| FieldRefs.FieldRef.ScanResolver | src/main/java/com/thoughtworks/qdox/model/expression/FieldRef.java:234-248 | the tier-4 loop computes the resolver tier |
| FieldRefs.FieldRef.ScanDeclaringClass | src/main/java/com/thoughtworks/qdox/model/expression/FieldRef.java:181-232 | tiers 1 to 3 run in order, each only when the earlier ones found nothing |
| FieldRefs.FieldRef.OwnFieldsFirst | src/main/java/com/thoughtworks/qdox/model/expression/FieldRef.java:181-184 | a segment the declaring class declares wins over every other tier, and the index is 0 |
| FieldRefs.FieldRef.ImportsAfterLibrary | src/main/java/com/thoughtworks/qdox/model/expression/FieldRef.java:206-231 | an imported field is used only when tiers 1 and 2 found nothing, and it keeps the index tier 2 left |
| FieldRefs.FieldRef.FoundFieldKept | src/main/java/com/thoughtworks/qdox/model/expression/FieldRef.java:181 | a cached field with a non-negative index, or with no declaring class, is returned without running any tier |
| FieldRefs.FieldRef.EarlyTiersIndex | src/main/java/com/thoughtworks/qdox/model/expression/FieldRef.java:183-198 | tiers 1 to 3 always leave a non-negative index |
| FieldRefs.FieldRef.EarlyIndex | src/main/java/com/thoughtworks/qdox/model/expression/FieldRef.java:181-184 | the index stays at -1 or more, and becomes non-negative whenever tiers 1 to 3 run |
| FieldRefs.FieldRef.ResolveSettles | src/main/java/com/thoughtworks/qdox/model/expression/FieldRef.java:181-248 | after one lookup, tiers 1 to 3 will not run again. The index is non-negative once a declaring class was searched or a field found. A failure leaves tiers 1 to 3 failed |
| FieldRefs.FieldRef.ResolutionMemoised | src/main/java/com/thoughtworks/qdox/model/expression/FieldRef.java:178-251 | a second lookup returns the same field and, after a success, the same state. After a failure, tier 4 runs again and the index grows by the number of prefixes the resolver turns into a class |
| FieldRefs.FieldRef.GetField | src/main/java/com/thoughtworks/qdox/model/expression/FieldRef.java:178-251 | `getField` caches exactly the outcome of the tiers for the old state and returns the cached field; the declaring class and library are unchanged |
| FieldRefs.FieldRef.SplitAt | src/main/java/com/thoughtworks/qdox/model/expression/FieldRef.java:137-159 | at a split past the first separator, the class part is the preceding prefix; the class part, a dot and the field part make up the name |
| FieldRefs.FieldRef.LibraryTierSplit | src/main/java/com/thoughtworks/qdox/model/expression/FieldRef.java:137-159 | after a tier-2 hit on prefix j, the class part is prefix j, and the class part, a dot and the field part give back the name |
| FieldRefs.FieldRef.ImportAfterCommitSplit | src/main/java/com/thoughtworks/qdox/model/expression/FieldRef.java:198 | a tier-3 field found after a failed tier-2 commit on prefix j keeps the index j + 1, and the class part is then prefix j |
| FieldRefs.FieldRef.ClassPart | src/main/java/com/thoughtworks/qdox/model/expression/FieldRef.java:137-147 | runs the lookup, then returns the text before the split when a field is known and none otherwise |
| FieldRefs.FieldRef.FieldPart | src/main/java/com/thoughtworks/qdox/model/expression/FieldRef.java:149-159 | runs the lookup, then returns the text after the split when a field is known and none otherwise |
| FieldRefs.FieldRef.OwnFieldDisplaysName | src/main/java/com/thoughtworks/qdox/model/expression/FieldRef.java:113-125 | a field of the declaring class itself renders as the raw name |
| FieldRefs.FieldRef.LibraryFieldDisplaysOwner | src/main/java/com/thoughtworks/qdox/model/expression/FieldRef.java:113-125 | a field found through the library on another class renders as that class's canonical name, a dot and the field's name |
| FieldRefs.FieldRef.ToString | src/main/java/com/thoughtworks/qdox/model/expression/FieldRef.java:113-125 | runs the lookup, then renders the owner and field name when the field belongs to another class, and the raw name otherwise |

## Left out

- `getName`, `getParameterValue` and `accept`: the first two return the name, which is the constant field `name`. `accept` only dispatches to a visitor, whose code is not part of this model.
- `JavaClass`, `JavaField`, `ClassLibrary` and `TypeResolver`: their internals are outside the class. They are oracles here.
  - `getJavaClass` always yields a class for the names the resolver asks about.
  - `getSource().getImports()` is the class's `imports` sequence.
  - Class equality in `toString` compares canonical names.
- The separator table is stored as an immutable sequence. `BuildParts` fills an array in the constructor's loop and hands its contents over.
- `GetField`: the Java loops write `field` and `fieldIndex` on every iteration. The model computes each tier in a helper method and assigns the result once. The final state is the same. The intermediate states are not modelled, and neither is concurrent access, which the class does not guard against.
- The exceptions `getField`, `getClassPart` and `toString` can raise are not modelled as error results. They are preconditions: `Resolvable`, the split-index requirement of `ClassPart` and `FieldPart`, and the declaring-class requirement of `ToString`.
- ResolutionMemoised: stated only for states whose index is -1 or more. In the model these are the only states an object can reach, because the index starts at -1 and never decreases.
- GetField: `fieldIndex` is an unbounded integer, not a 32-bit Java `int`. Each failed call runs tier 4 again and adds to the index. After 2^31 such increments a Java `int` would wrap to a negative value, and tiers 1 to 3 would then run again. The model does not capture that wrap-around.
- ResolveSettles: likewise stated only for states whose index is -1 or more.
- JavaStrings.Trim: has no contract of its own. Its two halves, `LeadingTrimmed` and `TrailingKept`, carry the specification.
- FieldRefs.FieldRef.FieldIn: its own contract says only that a found field belongs to the searched class. The lemmas beside it carry the rest. `FieldInFindsFirst` says which field it finds when some segment matches. `FieldInFromSegment` says a found field always comes from a segment in the range, so no match gives none. `FieldInNone` gives the converse.
- JavaModel.FieldByName: its own contract says only that a found field is declared with that name. That it is the first such field is stated by `FirstNamedIsFirst`.
- `StringTokenizer` is modelled only by its token count, the one thing the constructor asks of it.
