# CommitMiner's change-impact viewer, modelled in Dafny

CommitMiner annotates the new version of a JavaScript file with the
dependencies its analysis found. These are variable and value
definitions and uses, call sites, conditions, and control and data
dependencies. It renders the file as an HTML diff table in which every
annotated range is a `<span>` with a role class and a `data-address`
attribute. It then lets its user highlight and slice that table from a
context menu. This project models three parts of that system and proves
what each promises.

- **The slicing engine** (`multidiff.js`), in `multidiff.dfy`. The diff
  table is a class `Document` with two fields: a sequence of rows (code
  rows holding spans, and placeholder rows) and whether each row is
  shown. `erase`, `unslice`, `hideRows`, `showContext`, `all`, `getIDs`,
  `getSpanElement`, `checkIDs`, `gotoDef`, `defUse`, `findUses`, `sliLine`,
  `addPlaceholders` and `switchMenuSelection` are methods that update
  those fields step by step, as the script does. Each method is proved
  equal to a function of the old table. Lemmas then state what that
  function means: which spans end up marked, which rows end up shown,
  that placeholders start exactly the hidden runs, and that `unslice`
  undoes a slice.
- **The abstract domains** of the analysis (`Num`, `Str`, `Bool`, `Null`,
  `Undefined`, `Address`/`Addresses`, `Change`, `Dependencies`,
  `DefinerIDs`, `BValue`, `Variable`, `Obj`, `Store`, `Environment`,
  `Scratchpad`, `ControlCondition`) and the `FSCI` trace. Immutable values
  are datatypes and their operations are functions. The lemmas give the
  lattice laws the joins keep: upper bound, commutativity, idempotence
  and bottom as identity. Where the Java code departs from these laws,
  the model gives both the code as written and the corrected definition
  (see Findings).
- **Annotations and their output**: `Annotation`, its comparator and
  label, the two fact bases (classes over a sorted sequence that stands
  for the Java `TreeSet`), and `HTMLMultiDiffViewer.annotate`, a method
  whose loop is proved to open every annotation's span right before the
  character at its position, to write at each position as many closing
  tags as annotations of positive length end there, to close the open
  spans before each line break and reopen them, the oldest first, after
  it, and to write the source with `<` and `>` escaped. A closing tag
  closes the most recently opened span, so the spans of annotations that
  overlap without nesting are not closed at their own ends (see Left
  out).

Java exceptions become a `Result` whose error names the exception. A
Java `null` becomes an `Option`. Java `int` arithmetic is written out
with explicit wrap-around where the code relies on it.

## Model

| member | source | states |
|---|---|---|
| ChangeDomain.LeqTransitive | js-analysis/src/main/java/multidiffplus/jsanalysis/abstractdomain/Change.java:113-119 | the order of the four-element change lattice (BOTTOM below CHANGED and UNCHANGED, both below TOP) is transitive |
| ChangeDomain.Join | js-analysis/src/main/java/multidiffplus/jsanalysis/abstractdomain/Change.java:32-43 | join is an upper bound of both sides and below every other common upper bound: the least upper bound |
| ChangeDomain.JoinCommutative | js-analysis/src/main/java/multidiffplus/jsanalysis/abstractdomain/Change.java:32-43 | join does not depend on the order of its arguments |
| ChangeDomain.JoinIdempotent | js-analysis/src/main/java/multidiffplus/jsanalysis/abstractdomain/Change.java:37 | joining an element with itself gives it back |
| ChangeDomain.JoinBottomIdentity | js-analysis/src/main/java/multidiffplus/jsanalysis/abstractdomain/Change.java:38-39 | BOTTOM is the identity of join on either side |
| ChangeDomain.JoinChangedUnchanged | js-analysis/src/main/java/multidiffplus/jsanalysis/abstractdomain/Change.java:41 | CHANGED joined with UNCHANGED is TOP |
| ChangeDomain.IsChanged | js-analysis/src/main/java/multidiffplus/jsanalysis/abstractdomain/Change.java:48-52 | isChanged holds exactly for the elements at or above CHANGED (TOP and CHANGED) |
| ChangeDomain.Conv | js-analysis/src/main/java/multidiffplus/jsanalysis/abstractdomain/Change.java:88-95 | conv gives CHANGED exactly for inserted and removed nodes and UNCHANGED for every other node |
| ChangeDomain.ConvU | js-analysis/src/main/java/multidiffplus/jsanalysis/abstractdomain/Change.java:103-111 | convU gives CHANGED exactly for inserted, removed and updated nodes and UNCHANGED otherwise |
| ChangeDomain.ConvUWidensConv | js-analysis/src/main/java/multidiffplus/jsanalysis/abstractdomain/Change.java:88-111 | a node conv calls changed is changed for convU too, and the two differ exactly on updated nodes |
| NumDomain.MakeNum | js-analysis/src/main/java/multidiffplus/jsanalysis/abstractdomain/Num.java:24-31 | the one-argument constructor throws exactly for VAL, and otherwise builds the element with no literal |
| NumDomain.IsReal | js-analysis/src/main/java/multidiffplus/jsanalysis/abstractdomain/Num.java:74-82 | isReal holds exactly for VAL and REAL, the elements of a known nonzero real |
| NumDomain.IsFalsey | js-analysis/src/main/java/multidiffplus/jsanalysis/abstractdomain/Num.java:84-93 | isFalsey holds exactly for NAN, ZERO and NAN_ZERO |
| NumDomain.NotNaN | js-analysis/src/main/java/multidiffplus/jsanalysis/abstractdomain/Num.java:95-105 | notNaN fails exactly for NAN, NOT_ZERO, NAN_ZERO and TOP, the elements that may be NaN |
| NumDomain.NotZero | js-analysis/src/main/java/multidiffplus/jsanalysis/abstractdomain/Num.java:107-117 | notZero fails exactly for ZERO, NOT_NAN, NAN_ZERO and TOP, the elements that may be zero |
| NumDomain.NotZeroNorNaN | js-analysis/src/main/java/multidiffplus/jsanalysis/abstractdomain/Num.java:119-131 | notZeroNorNaN fails exactly for the elements that may be zero or NaN |
| NumDomain.Top | js-analysis/src/main/java/multidiffplus/jsanalysis/abstractdomain/Num.java:160-162 | top is the one-argument constructor applied to TOP, about which none of the number predicates holds |
| NumDomain.Bottom | js-analysis/src/main/java/multidiffplus/jsanalysis/abstractdomain/Num.java:167-169 | bottom is the one-argument constructor applied to BOTTOM, which stands for no number and so is neither zero nor NaN |
| NumDomain.NotZeroNorNaNIsBoth | js-analysis/src/main/java/multidiffplus/jsanalysis/abstractdomain/Num.java:95-131 | notZeroNorNaN holds exactly when both notZero and notNaN hold |
| NumDomain.RealIsNotZeroNorNaN | js-analysis/src/main/java/multidiffplus/jsanalysis/abstractdomain/Num.java:74-131 | a real-family element is neither zero nor NaN, and a falsey one is not "neither zero nor NaN" |
| NumDomain.JoinAsWritten | js-analysis/src/main/java/multidiffplus/jsanalysis/abstractdomain/Num.java:47-72 | join as written: equal elements give themselves, BOTTOM is an identity, two real-family elements give REAL; the result is not-NaN or not-zero only if both sides are, and NOT_ZERO_NOR_NAN comes out only as one of the inputs |
| NumDomain.JoinAsWrittenForgetsNotZero | js-analysis/src/main/java/multidiffplus/jsanalysis/abstractdomain/Num.java:61-68 | joining PI and NI as written gives NOT_NAN, which has lost the fact that neither side is zero |
| NumDomain.Join | js-analysis/src/main/java/multidiffplus/jsanalysis/abstractdomain/Num.java:47-72 | join with the cases in order of precision: the same identity, BOTTOM and REAL cases, and the result is not-NaN, not-zero and neither-zero-nor-NaN exactly when both sides are |
| NumDomain.JoinZeroNaN | js-analysis/src/main/java/multidiffplus/jsanalysis/abstractdomain/Num.java:65-66 | ZERO joined with NAN gives NAN_ZERO, in both versions |
| NumDomain.JoinAgreesWithWritten | js-analysis/src/main/java/multidiffplus/jsanalysis/abstractdomain/Num.java:61-68 | the corrected join differs from the written one only where the written one gives NOT_NAN and the corrected one NOT_ZERO_NOR_NAN |
| NumDomain.JoinCommutative | js-analysis/src/main/java/multidiffplus/jsanalysis/abstractdomain/Num.java:47-72 | join is commutative except for two BOTTOM elements with different literals, where the left one decides |
| NumDomain.EqualsAsWritten | js-analysis/src/main/java/multidiffplus/jsanalysis/abstractdomain/Num.java:182-193 | equals as written holds exactly when the elements agree and the receiver has no literal or the same literal |
| NumDomain.EqualsAsWrittenAsymmetric | js-analysis/src/main/java/multidiffplus/jsanalysis/abstractdomain/Num.java:188 | as written, a VAL without a literal equals a VAL with one, but not the other way round |
| NumDomain.Equals | js-analysis/src/main/java/multidiffplus/jsanalysis/abstractdomain/Num.java:182-193 | the corrected equals holds exactly when element and literal are both equal |
| StrDomain.MakeStrAsWritten | js-analysis/src/main/java/multidiffplus/jsanalysis/abstractdomain/Str.java:31-37 | the one-argument constructor as written never throws, because its guard reads the field before it is set |
| StrDomain.MakeStrAsWrittenAcceptsValElement | js-analysis/src/main/java/multidiffplus/jsanalysis/abstractdomain/Str.java:32-34 | as written, SNUMVAL is accepted without a literal although it is a VAL element |
| StrDomain.MakeStr | js-analysis/src/main/java/multidiffplus/jsanalysis/abstractdomain/Str.java:31-37 | the corrected constructor throws exactly for the three VAL elements, and otherwise builds the element with no literal |
| StrDomain.IsNum | js-analysis/src/main/java/multidiffplus/jsanalysis/abstractdomain/Str.java:77-85 | isNum holds exactly for SNUMVAL and SNUM |
| StrDomain.IsStr | js-analysis/src/main/java/multidiffplus/jsanalysis/abstractdomain/Str.java:87-95 | isStr holds exactly for SNOTNUMNORSPLVAL and SNOTNUMNORSPL |
| StrDomain.IsSpl | js-analysis/src/main/java/multidiffplus/jsanalysis/abstractdomain/Str.java:97-105 | isSpl holds exactly for SSPLVAL and SSPL |
| StrDomain.NotSpl | js-analysis/src/main/java/multidiffplus/jsanalysis/abstractdomain/Str.java:107-117 | notSpl fails exactly for SSPLVAL, SSPL, SNOTNUM and TOP |
| StrDomain.NotNum | js-analysis/src/main/java/multidiffplus/jsanalysis/abstractdomain/Str.java:119-129 | notNum fails exactly for SNUMVAL, SNUM, SNOTSPL and TOP |
| StrDomain.NotBlankLE | js-analysis/src/main/java/multidiffplus/jsanalysis/abstractdomain/Str.java:131-139 | the element-level notBlank fails exactly for SBLANK and TOP |
| StrDomain.Top | js-analysis/src/main/java/multidiffplus/jsanalysis/abstractdomain/Str.java:164-166 | top is the one-argument constructor applied to TOP, which is neither known not blank, nor known not special, nor known not numeric |
| StrDomain.Bottom | js-analysis/src/main/java/multidiffplus/jsanalysis/abstractdomain/Str.java:171-173 | bottom is the one-argument constructor applied to BOTTOM, which is in none of the three string families |
| StrDomain.JoinDistinct | js-analysis/src/main/java/multidiffplus/jsanalysis/abstractdomain/Str.java:58-73 | for distinct non-BOTTOM elements the join is never a VAL element, and it keeps "not blank" when both sides have it |
| StrDomain.JoinAsWritten | js-analysis/src/main/java/multidiffplus/jsanalysis/abstractdomain/Str.java:46-75 | join as written: BOTTOM on the left gives the right side, and BOTTOM on the right keeps the left element but takes the right side's literal |
| StrDomain.JoinAsWrittenDropsLiteral | js-analysis/src/main/java/multidiffplus/jsanalysis/abstractdomain/Str.java:55-56 | as written, SNUMVAL "5" joined with BOTTOM loses its literal |
| StrDomain.Join | js-analysis/src/main/java/multidiffplus/jsanalysis/abstractdomain/Str.java:46-75 | the corrected join: equal elements give themselves, BOTTOM is an identity on both sides, two numbers give SNUM, two plain strings SNOTNUMNORSPL, two specials SSPL; it keeps "not blank", and a VAL result is one of the inputs |
| StrDomain.JoinCommutative | js-analysis/src/main/java/multidiffplus/jsanalysis/abstractdomain/Str.java:46-75 | join is commutative except for two BOTTOM elements with different literals |
| StrDomain.JoinAgreesWithWritten | js-analysis/src/main/java/multidiffplus/jsanalysis/abstractdomain/Str.java:55-56 | the corrected join differs from the written one only when the right side alone is BOTTOM |
| StrDomain.NotBlank | js-analysis/src/main/java/multidiffplus/jsanalysis/abstractdomain/Str.java:144-149 | notBlank is true exactly for numbers, specials, BOTTOM and a non-empty plain literal; it throws for a plain VAL element without a literal |
| StrDomain.NotBlankSound | js-analysis/src/main/java/multidiffplus/jsanalysis/abstractdomain/Str.java:131-149 | a string reported not blank has a not-blank element, and SBLANK and TOP are never reported not blank |
| StrDomain.EqualsAsWritten | js-analysis/src/main/java/multidiffplus/jsanalysis/abstractdomain/Str.java:188-199 | equals as written holds exactly when the elements agree and the receiver has no literal or the same literal |
| StrDomain.EqualsAsWrittenAsymmetric | js-analysis/src/main/java/multidiffplus/jsanalysis/abstractdomain/Str.java:194 | as written, an SNUMVAL without a literal equals one with a literal, but not the other way round |
| StrDomain.Equals | js-analysis/src/main/java/multidiffplus/jsanalysis/abstractdomain/Str.java:188-199 | the corrected equals holds exactly when element and literal are both equal |
| BoolDomain.JoinAsWritten | js-analysis/src/main/java/multidiffplus/jsanalysis/abstractdomain/Bool.java:27-38 | join as written reads both operands from the receiver, so it always returns the receiver's element |
| BoolDomain.JoinAsWrittenNotUpperBound | js-analysis/src/main/java/multidiffplus/jsanalysis/abstractdomain/Bool.java:29-32 | as written, TRUE joined with FALSE gives TRUE, which is not above FALSE, and BOTTOM joined with TRUE stays BOTTOM |
| BoolDomain.Join | js-analysis/src/main/java/multidiffplus/jsanalysis/abstractdomain/Bool.java:27-38 | the corrected join is the least upper bound in the four-element lattice |
| BoolDomain.JoinCommutative | js-analysis/src/main/java/multidiffplus/jsanalysis/abstractdomain/Bool.java:27-38 | the corrected join is commutative |
| BoolDomain.NotFalse | js-analysis/src/main/java/multidiffplus/jsanalysis/abstractdomain/Bool.java:43-49 | notFalse holds exactly when FALSE is not below the element (BOTTOM or TRUE) |
| BoolDomain.Top | js-analysis/src/main/java/multidiffplus/jsanalysis/abstractdomain/Bool.java:70-72 | top is above every element |
| BoolDomain.Bottom | js-analysis/src/main/java/multidiffplus/jsanalysis/abstractdomain/Bool.java:77-79 | bottom is below every element |
| NullDomain.StrongUpdate | js-analysis/src/main/java/multidiffplus/jsanalysis/abstractdomain/Null.java:25-27 | a strong update forgets the old element and takes the new one |
| NullDomain.WeakUpdate | js-analysis/src/main/java/multidiffplus/jsanalysis/abstractdomain/Null.java:34-37 | a weak update is the least upper bound of the old and the new element |
| NullDomain.Join | js-analysis/src/main/java/multidiffplus/jsanalysis/abstractdomain/Null.java:44-46 | join is the least upper bound of the two elements |
| NullDomain.JoinCommutative | js-analysis/src/main/java/multidiffplus/jsanalysis/abstractdomain/Null.java:44-46 | join is commutative |
| NullDomain.StrongBelowWeak | js-analysis/src/main/java/multidiffplus/jsanalysis/abstractdomain/Null.java:25-37 | the strong update with an element is below the weak update with it |
| NullDomain.Top | js-analysis/src/main/java/multidiffplus/jsanalysis/abstractdomain/Null.java:67-69 | top is above every element |
| NullDomain.Bottom | js-analysis/src/main/java/multidiffplus/jsanalysis/abstractdomain/Null.java:74-76 | bottom is below every element |
| UndefinedDomain.Join | js-analysis/src/main/java/multidiffplus/jsanalysis/abstractdomain/Undefined.java:25-28 | join is the least upper bound of the two elements |
| UndefinedDomain.JoinCommutative | js-analysis/src/main/java/multidiffplus/jsanalysis/abstractdomain/Undefined.java:25-28 | join is commutative |
| UndefinedDomain.JoinIdempotent | js-analysis/src/main/java/multidiffplus/jsanalysis/abstractdomain/Undefined.java:26 | an element joined with itself is unchanged |
| UndefinedDomain.Top | js-analysis/src/main/java/multidiffplus/jsanalysis/abstractdomain/Undefined.java:49-51 | top is above every element |
| UndefinedDomain.Bottom | js-analysis/src/main/java/multidiffplus/jsanalysis/abstractdomain/Undefined.java:56-58 | bottom is below every element |
| JSClasses.ClassValue | js-analysis/src/main/java/multidiffplus/jsanalysis/abstractdomain/JSClass.java:4-25 | each class's value is at most 5, and only CObject has value 0 |
| AddressDomain.Equals | js-analysis/src/main/java/multidiffplus/jsanalysis/abstractdomain/Address.java:29-36 | two addresses are equal exactly when both location and property name agree |
| AddressDomain.HashCode | js-analysis/src/main/java/multidiffplus/jsanalysis/abstractdomain/Address.java:38-41 | the hash is a Java int computed from the location's BigInteger hash |
| AddressDomain.HashCodeOfLocation | js-analysis/src/main/java/multidiffplus/jsanalysis/abstractdomain/Address.java:38-41 | addresses at the same location hash equally, whatever their property names |
| AddressDomain.EqualAddressesHashEqually | js-analysis/src/main/java/multidiffplus/jsanalysis/abstractdomain/Address.java:29-41 | equal addresses have equal hashes, as the equals/hashCode contract demands |
| AddressDomain.HashCodeSmall | js-analysis/src/main/java/multidiffplus/jsanalysis/abstractdomain/Address.java:38-41 | a location between 0 and Integer.MAX_VALUE is its own hash |
| AddressDomain.BuiltinAddresses.constructor | js-analysis/src/main/java/multidiffplus/jsanalysis/abstractdomain/Address.java:13 | the builtin counter starts at -1 |
| AddressDomain.BuiltinAddresses.CreateBuiltinAddr | js-analysis/src/main/java/multidiffplus/jsanalysis/abstractdomain/Address.java:73-77 | returns the current (negative) counter with the given property and decrements the counter |
| AddressDomain.BuiltinAddresses.CreateAnonymousBuiltinAddr | js-analysis/src/main/java/multidiffplus/jsanalysis/abstractdomain/Address.java:64-68 | the same with an empty property name |
| AddressDomain.SuccessiveBuiltinsDecrease | js-analysis/src/main/java/multidiffplus/jsanalysis/abstractdomain/Address.java:64-77 | two builtin addresses made one after the other are negative, strictly decreasing and so distinct |
| AddressesDomain.Top | js-analysis/src/main/java/multidiffplus/jsanalysis/abstractdomain/Addresses.java:114-116 | top is built with an empty set, as every non-SET element must be |
| AddressesDomain.Bottom | js-analysis/src/main/java/multidiffplus/jsanalysis/abstractdomain/Addresses.java:121-123 | bottom is built with an empty set, as every non-SET element must be |
| AddressesDomain.TopBottomMeaning | js-analysis/src/main/java/multidiffplus/jsanalysis/abstractdomain/Addresses.java:114-123 | top may point to every address and bottom to none |
| AddressesDomain.FromSet | js-analysis/src/main/java/multidiffplus/jsanalysis/abstractdomain/Addresses.java:26-29 | the constructor from a set may point to exactly the addresses of the set |
| AddressesDomain.Join | js-analysis/src/main/java/multidiffplus/jsanalysis/abstractdomain/Addresses.java:64-81 | BOTTOM is an identity, TOP absorbs, two sets give TOP exactly when their sizes add up to more than MAX_SIZE; the result may point to everything either side may point to and, when a set, to nothing else, and stays within MAX_SIZE |
| AddressesDomain.JoinCommutative | js-analysis/src/main/java/multidiffplus/jsanalysis/abstractdomain/Addresses.java:64-81 | join is commutative on well-formed values |
| AddressesDomain.JoinNotIdempotent | js-analysis/src/main/java/multidiffplus/jsanalysis/abstractdomain/Addresses.java:73-74 | a set of six addresses joined with itself becomes TOP, because the cap adds both sizes |
| AddressesDomain.JoinIdempotentSmall | js-analysis/src/main/java/multidiffplus/jsanalysis/abstractdomain/Addresses.java:64-81 | a set at most half of MAX_SIZE, TOP or BOTTOM joined with itself is unchanged |
| AddressesDomain.WeakUpdate | js-analysis/src/main/java/multidiffplus/jsanalysis/abstractdomain/Addresses.java:46-48 | a weak update keeps every old and every new address, and gives TOP exactly when the value was TOP or the two sizes exceed MAX_SIZE |
| AddressesDomain.StrongUpdate | js-analysis/src/main/java/multidiffplus/jsanalysis/abstractdomain/Addresses.java:53-57 | a strong update gives TOP for more than MAX_SIZE addresses and exactly the new set otherwise |
| AddressesDomain.Equals | js-analysis/src/main/java/multidiffplus/jsanalysis/abstractdomain/Addresses.java:146-155 | equals holds exactly when the address sets are equal |
| AddressesDomain.EqualsIgnoresElement | js-analysis/src/main/java/multidiffplus/jsanalysis/abstractdomain/Addresses.java:146-155 | equals does not compare the lattice element, so TOP equals BOTTOM |
| DependenciesDomain.Join | js-analysis/src/main/java/multidiffplus/jsanalysis/abstractdomain/Dependencies.java:54-59 | the join holds every id of either side and nothing else |
| DependenciesDomain.Bot | js-analysis/src/main/java/multidiffplus/jsanalysis/abstractdomain/Dependencies.java:71-73 | bot has no dependencies |
| DependenciesDomain.BotIsJoinIdentity | js-analysis/src/main/java/multidiffplus/jsanalysis/abstractdomain/Dependencies.java:54-73 | bot is an identity for join on both sides |
| DependenciesDomain.JoinLaws | js-analysis/src/main/java/multidiffplus/jsanalysis/abstractdomain/Dependencies.java:54-59 | join is commutative, idempotent and associative |
| DependenciesDomain.IsEmpty | js-analysis/src/main/java/multidiffplus/jsanalysis/abstractdomain/Dependencies.java:64-66 | isEmpty holds exactly when there are no ids |
| DependenciesDomain.Inject | js-analysis/src/main/java/multidiffplus/jsanalysis/abstractdomain/Dependencies.java:109-112 | inject gives exactly the node's id |
| DependenciesDomain.Equals | js-analysis/src/main/java/multidiffplus/jsanalysis/abstractdomain/Dependencies.java:114-120 | equals (containment both ways) holds exactly when the id sets are equal |
| DefinerIDsDomain.IsEmpty | js-analysis/src/main/java/multidiffplus/jsanalysis/abstractdomain/DefinerIDs.java:19-21 | isEmpty holds exactly when there are no ids |
| DefinerIDsDomain.WeakUpdate | js-analysis/src/main/java/multidiffplus/jsanalysis/abstractdomain/DefinerIDs.java:23-27 | a weak update holds the old ids and the new one, and nothing else |
| DefinerIDsDomain.StrongUpdate | js-analysis/src/main/java/multidiffplus/jsanalysis/abstractdomain/DefinerIDs.java:29-33 | a strong update holds exactly the new id |
| DefinerIDsDomain.Join | js-analysis/src/main/java/multidiffplus/jsanalysis/abstractdomain/DefinerIDs.java:35-39 | the join holds exactly the ids of either side |
| DefinerIDsDomain.Bottom | js-analysis/src/main/java/multidiffplus/jsanalysis/abstractdomain/DefinerIDs.java:45-47 | bottom is empty |
| DefinerIDsDomain.WeakUpdateIsJoinWithStrong | js-analysis/src/main/java/multidiffplus/jsanalysis/abstractdomain/DefinerIDs.java:23-39 | a weak update is the join with the strong update by the same id |
| DefinerIDsDomain.Equals | js-analysis/src/main/java/multidiffplus/jsanalysis/abstractdomain/DefinerIDs.java:55-64 | equals (same size, and every id of one in the other) holds exactly when the id sets are equal |
| DefinerIDsDomain.ToString | js-analysis/src/main/java/multidiffplus/jsanalysis/abstractdomain/DefinerIDs.java:66-74 | the ids in iteration order joined by commas, with no trailing comma; "" exactly for the empty set |
| BValueDomain.Join | js-analysis/src/main/java/multidiffplus/jsanalysis/abstractdomain/BValue.java:46-53 | the component-wise join keeps values well formed, is above both sides in the change and boolean lattices, keeps every address either side may point to, and unites the dependencies |
| BValueDomain.Bottom | js-analysis/src/main/java/multidiffplus/jsanalysis/abstractdomain/BValue.java:168-171 | bottom is a well-formed value |
| BValueDomain.BottomWith | js-analysis/src/main/java/multidiffplus/jsanalysis/abstractdomain/BValue.java:178-181 | bottom with a change and dependencies is well formed and carries exactly that change and those dependencies |
| BValueDomain.Top | js-analysis/src/main/java/multidiffplus/jsanalysis/abstractdomain/BValue.java:159-163 | top is above every value in the boolean, null and undefined lattices and points to no address |
| BValueDomain.Primitive | js-analysis/src/main/java/multidiffplus/jsanalysis/abstractdomain/BValue.java:188-191 | primitive builds the same value as top |
| BValueDomain.JoinBottomIdentity | js-analysis/src/main/java/multidiffplus/jsanalysis/abstractdomain/BValue.java:46-53 | bottom is an identity for join on both sides of a well-formed value |
| BValueDomain.JoinCommutative | js-analysis/src/main/java/multidiffplus/jsanalysis/abstractdomain/BValue.java:46-53 | join is commutative on well-formed values |
| BValueDomain.JoinIdempotentSmall | js-analysis/src/main/java/multidiffplus/jsanalysis/abstractdomain/BValue.java:46-53 | a value whose points-to set is small joined with itself is unchanged |
| BValueDomain.JoinWithTop | js-analysis/src/main/java/multidiffplus/jsanalysis/abstractdomain/BValue.java:46-53 | joining with top makes every primitive component TOP and keeps the addresses |
| BValueDomain.InjectAddress | js-analysis/src/main/java/multidiffplus/jsanalysis/abstractdomain/Address.java:47-59 | Address.inject builds a well-formed value that points to exactly that address and is bottom otherwise |
| BValueDomain.IsUndefined | js-analysis/src/main/java/multidiffplus/jsanalysis/abstractdomain/BValue.java:58-68 | isUndefined: the undefined component is TOP and every other component BOTTOM |
| BValueDomain.IsNull | js-analysis/src/main/java/multidiffplus/jsanalysis/abstractdomain/BValue.java:72-82 | isNull: the null component is TOP and every other component BOTTOM |
| BValueDomain.IsBlank | js-analysis/src/main/java/multidiffplus/jsanalysis/abstractdomain/BValue.java:86-96 | isBlank: the string component is SBLANK and every other component BOTTOM |
| BValueDomain.IsNaNAsWritten | js-analysis/src/main/java/multidiffplus/jsanalysis/abstractdomain/BValue.java:100-110 | isNaN as written: the number component is NAN, the string component is not BOTTOM, and the rest are BOTTOM |
| BValueDomain.IsZeroAsWritten | js-analysis/src/main/java/multidiffplus/jsanalysis/abstractdomain/BValue.java:114-124 | isZero as written: the number component is ZERO, the string component is not BOTTOM, and the rest are BOTTOM |
| BValueDomain.IsFalseAsWritten | js-analysis/src/main/java/multidiffplus/jsanalysis/abstractdomain/BValue.java:128-138 | isFalse as written: the boolean component is FALSE, the string component is not BOTTOM, and the rest are BOTTOM |
| BValueDomain.IsAddressAsWritten | js-analysis/src/main/java/multidiffplus/jsanalysis/abstractdomain/BValue.java:142-153 | isAddress as written: exactly one address, the string component not BOTTOM, and the rest BOTTOM |
| BValueDomain.IsNaN | js-analysis/src/main/java/multidiffplus/jsanalysis/abstractdomain/BValue.java:100-110 | the corrected isNaN: the number component is NAN and every other component BOTTOM |
| BValueDomain.IsZero | js-analysis/src/main/java/multidiffplus/jsanalysis/abstractdomain/BValue.java:114-124 | the corrected isZero: the number component is ZERO and every other component BOTTOM |
| BValueDomain.IsFalse | js-analysis/src/main/java/multidiffplus/jsanalysis/abstractdomain/BValue.java:128-138 | the corrected isFalse: the boolean component is FALSE and every other component BOTTOM |
| BValueDomain.IsAddress | js-analysis/src/main/java/multidiffplus/jsanalysis/abstractdomain/BValue.java:142-153 | the corrected isAddress: exactly one address and every other component BOTTOM |
| BValueDomain.UndefinedNullExclusive | js-analysis/src/main/java/multidiffplus/jsanalysis/abstractdomain/BValue.java:58-95 | no value is at once definitely undefined, definitely null or definitely blank |
| BValueDomain.IsAddressAsWrittenRejectsInjected | js-analysis/src/main/java/multidiffplus/jsanalysis/abstractdomain/BValue.java:142-152 | as written, isAddress rejects the value Address.inject builds and accepts it once the string component is TOP |
| BValueDomain.IsAddressIffInjected | js-analysis/src/main/java/multidiffplus/jsanalysis/abstractdomain/BValue.java:142-152 | with the string component required to be BOTTOM, isAddress holds exactly for injected addresses |
| BValueDomain.PredicatesExclusive | js-analysis/src/main/java/multidiffplus/jsanalysis/abstractdomain/BValue.java:58-152 | with the string component required to be BOTTOM, the "definitely" predicates describe disjoint sets of values |
| BValueDomain.Equals | js-analysis/src/main/java/multidiffplus/jsanalysis/abstractdomain/BValue.java:206-228 | equals holds exactly when all components are equal, with the points-to sets compared by their addresses only |
| BValueDomain.EqualsIgnoresPointsToElement | js-analysis/src/main/java/multidiffplus/jsanalysis/abstractdomain/BValue.java:221-222 | a value that may point anywhere equals the same value pointing nowhere |
| VariableDomain.Join | js-analysis/src/main/java/multidiffplus/jsanalysis/abstractdomain/Variable.java:23-26 | the join keeps the receiver's name, may point to every address either side may point to, is above both changes and unites the dependencies |
| VariableDomain.JoinKeepsReceiverName | js-analysis/src/main/java/multidiffplus/jsanalysis/abstractdomain/Variable.java:23-26 | the joined variable equals the receiver and, when the names differ, not the argument |
| VariableDomain.Inject | js-analysis/src/main/java/multidiffplus/jsanalysis/abstractdomain/Variable.java:39-41 | inject builds a variable with the given name, change and dependencies that points to exactly the given address |
| VariableDomain.Equals | js-analysis/src/main/java/multidiffplus/jsanalysis/abstractdomain/Variable.java:54-61 | two variables are equal exactly when their names are |
| VariableDomain.HashCode | js-analysis/src/main/java/multidiffplus/jsanalysis/abstractdomain/Variable.java:49-51 | the hash is the Java int hash of the name |
| VariableDomain.EqualVariablesHashEqually | js-analysis/src/main/java/multidiffplus/jsanalysis/abstractdomain/Variable.java:49-61 | equal variables hash equally |
| ObjDomain.Apply | js-analysis/src/main/java/multidiffplus/jsanalysis/abstractdomain/Obj.java:52-56 | apply gives null exactly when the object has no such property, and otherwise that property's address |
| ObjDomain.DefinitelyNotPropertyAsWritten | js-analysis/src/main/java/multidiffplus/jsanalysis/abstractdomain/Obj.java:42-44 | as written, definitelyNotProperty holds exactly when the property is present |
| ObjDomain.DefinitelyNotProperty | js-analysis/src/main/java/multidiffplus/jsanalysis/abstractdomain/Obj.java:38-44 | as documented, definitelyNotProperty holds exactly when apply finds no property |
| ObjDomain.DefinitelyNotPropertyInverted | js-analysis/src/main/java/multidiffplus/jsanalysis/abstractdomain/Obj.java:42-44 | the written and the documented versions disagree on every name; as written an object with no properties never definitely lacks one |
| ObjDomain.MergeProps | js-analysis/src/main/java/multidiffplus/jsanalysis/abstractdomain/Obj.java:66-91 | the joined object has the names of either side, the left object's property wherever the left has one, the right object's otherwise, and the left object's internal properties |
| ObjDomain.MergedCharacterized | js-analysis/src/main/java/multidiffplus/jsanalysis/abstractdomain/Obj.java:66-91 | any property map with those three facts is the merged one |
| ObjDomain.ApplyMerged | js-analysis/src/main/java/multidiffplus/jsanalysis/abstractdomain/Obj.java:52-91 | looking a name up in the joined object finds the left property first, then the right one |
| ObjDomain.ConflictJoinDomain | js-analysis/src/main/java/multidiffplus/jsanalysis/abstractdomain/Obj.java:68-89 | the value-map writes never add or remove an address, and throw a null dereference exactly when some conflicting property has a value missing |
| ObjDomain.ConflictJoinFrame | js-analysis/src/main/java/multidiffplus/jsanalysis/abstractdomain/Obj.java:78-86 | only the left addresses of conflicting properties are written, and each write only adds dependencies |
| ObjDomain.Step | js-analysis/src/main/java/multidiffplus/jsanalysis/abstractdomain/Obj.java:72-86 | one conflicting property throws exactly when a value is missing, and otherwise puts the join of the two values at the left address |
| ObjDomain.ConflictJoinSnoc | js-analysis/src/main/java/multidiffplus/jsanalysis/abstractdomain/Obj.java:68-89 | the writes for one more property are the writes so far followed by that property's step |
| ObjDomain.Join | js-analysis/src/main/java/multidiffplus/jsanalysis/abstractdomain/Obj.java:64-93 | the loop over the right object's properties gives the merged properties and the value map with conflicting values joined, and throws exactly when the writes throw |
| ObjDomain.MergedSnoc | js-analysis/src/main/java/multidiffplus/jsanalysis/abstractdomain/Obj.java:68-70 | visiting one more right property puts it in exactly when the left object lacks it |
| ObjDomain.MissingThrows | js-analysis/src/main/java/multidiffplus/jsanalysis/abstractdomain/Obj.java:75-85 | a conflicting property whose value is missing when it is reached makes the whole join throw |
| ObjDomain.ConflictJoinErrIff | js-analysis/src/main/java/multidiffplus/jsanalysis/abstractdomain/Obj.java:64-93 | whether join throws does not depend on the order the right object's properties are visited in |
| ObjDomain.Equals | js-analysis/src/main/java/multidiffplus/jsanalysis/abstractdomain/Obj.java:103-113 | equals holds exactly when both objects have the same names and, for each, properties with the same name |
| ObjDomain.EqualsIgnoresAddresses | js-analysis/src/main/java/multidiffplus/jsanalysis/abstractdomain/Obj.java:103-113 | objects whose properties differ only in address and definer, and whose internal properties differ, are equal |
| StoreDomain.JoinValues | js-analysis/src/main/java/multidiffplus/jsanalysis/abstractdomain/Store.java:65-82 | the joined value map has the addresses of both stores, keeps one-sided entries and joins entries present on both sides |
| StoreDomain.JoinValuesLaws | js-analysis/src/main/java/multidiffplus/jsanalysis/abstractdomain/Store.java:73-82 | the empty map is an identity of the value join, which on well-formed values does not depend on the side |
| StoreDomain.JoinValuesCharacterized | js-analysis/src/main/java/multidiffplus/jsanalysis/abstractdomain/Store.java:73-82 | any map agreeing pointwise with those rules is the joined value map |
| StoreDomain.Join | js-analysis/src/main/java/multidiffplus/jsanalysis/abstractdomain/Store.java:58-96 | join throws exactly when some shared object has a conflicting property whose value is missing; otherwise the value map is the joined one except at addresses an object join writes, where dependencies only grow, and the object map keeps one-sided objects and merges shared ones |
| StoreDomain.JoinObjects | js-analysis/src/main/java/multidiffplus/jsanalysis/abstractdomain/Store.java:84-92 | the loop over the right store's objects puts in right-only objects and merges shared ones with Obj.join, writing only where a conflicting property points |
| StoreDomain.ObjectsAddRight | js-analysis/src/main/java/multidiffplus/jsanalysis/abstractdomain/Store.java:88-89 | a right object at an address the left store lacks is put in as it is |
| StoreDomain.ObjectsMerge | js-analysis/src/main/java/multidiffplus/jsanalysis/abstractdomain/Store.java:90-91 | an object at an address both stores have is replaced by the merge |
| StoreDomain.JoinValueMaps | js-analysis/src/main/java/multidiffplus/jsanalysis/abstractdomain/Store.java:65-82 | the loop over the right store's values builds exactly the joined value map |
| StoreDomain.ThrowsWitness | js-analysis/src/main/java/multidiffplus/jsanalysis/abstractdomain/Store.java:91 | a missing conflicting value in one shared object makes the store join throw |
| StoreDomain.ValuesStep | js-analysis/src/main/java/multidiffplus/jsanalysis/abstractdomain/Store.java:91 | one object join changes the value map only where a conflicting property points, and only adds dependencies |
| StoreDomain.WriteIsWrittenByJoin | js-analysis/src/main/java/multidiffplus/jsanalysis/abstractdomain/Store.java:84-92 | every address one object join writes is an address the store join may write |
| StoreDomain.Alloc | js-analysis/src/main/java/multidiffplus/jsanalysis/abstractdomain/Store.java:108-126 | alloc puts the value at a fresh address, joins it with the old value at a used one, leaves every other address and the objects unchanged |
| StoreDomain.AllocIsJoin | js-analysis/src/main/java/multidiffplus/jsanalysis/abstractdomain/Store.java:108-115 | allocating a value is joining with the one-entry value map |
| StoreDomain.AllocObj | js-analysis/src/main/java/multidiffplus/jsanalysis/abstractdomain/Store.java:138-147 | alloc of an object puts it at a fresh address, or merges it with Obj.join into the object there, which throws exactly when a conflicting value is missing; other objects stay; no address is added to the value map, a value changes only at the left address of a conflicting property, and every value keeps at least its dependencies |
| StoreDomain.StrongUpdate | js-analysis/src/main/java/multidiffplus/jsanalysis/abstractdomain/Store.java:154-167 | a strong update puts the value at the address and leaves every other address and the objects unchanged |
| StoreDomain.StrongUpdateOverridesAlloc | js-analysis/src/main/java/multidiffplus/jsanalysis/abstractdomain/Store.java:108-167 | a strong update after alloc discards what was allocated, and alloc after a strong update joins with the value put there |
| StoreDomain.StrongUpdateObj | js-analysis/src/main/java/multidiffplus/jsanalysis/abstractdomain/Store.java:174-178 | a strong update of an object makes getObj return it at that address and changes nothing else |
| StoreDomain.GetObj | js-analysis/src/main/java/multidiffplus/jsanalysis/abstractdomain/Store.java:222-224 | getObj returns null exactly for an address without an object, and otherwise the object |
| StoreDomain.FoldJoinSpec | js-analysis/src/main/java/multidiffplus/jsanalysis/abstractdomain/Store.java:206-215 | the fold is null exactly when none of the addresses is stored; otherwise its dependencies are exactly those of the stored values and its change is above each of theirs |
| StoreDomain.Apply | js-analysis/src/main/java/multidiffplus/jsanalysis/abstractdomain/Store.java:206-215 | apply(Addresses) computes the fold in the set's iteration order, and returns null exactly when no address of the set is stored |
| EnvironmentDomain.EnvJoin | js-analysis/src/main/java/multidiffplus/jsanalysis/abstractdomain/Environment.java:113-141 | the joined map has the names of both sides; a name of one side, or bound to the same variable on both, keeps it, and a name bound to different variables gets their join |
| EnvironmentDomain.EnvJoinLaws | js-analysis/src/main/java/multidiffplus/jsanalysis/abstractdomain/Environment.java:113-141 | the empty environment is an identity on both sides, joining with itself changes nothing, and every joined variable is equal by name to the one it came from |
| EnvironmentDomain.Environment.constructor | js-analysis/src/main/java/multidiffplus/jsanalysis/abstractdomain/Environment.java:22-24 | a new environment is empty |
| EnvironmentDomain.Environment.FromMap | js-analysis/src/main/java/multidiffplus/jsanalysis/abstractdomain/Environment.java:32-34 | the private constructor wraps the given map |
| EnvironmentDomain.Environment.StrongUpdate | js-analysis/src/main/java/multidiffplus/jsanalysis/abstractdomain/Environment.java:71-75 | a fresh environment with the name bound to the variable; the receiver is unchanged |
| EnvironmentDomain.Environment.StrongUpdateNoCopy | js-analysis/src/main/java/multidiffplus/jsanalysis/abstractdomain/Environment.java:87-89 | the receiver's own map has the name bound to the variable, everything else as before |
| EnvironmentDomain.Environment.WeakUpdate | js-analysis/src/main/java/multidiffplus/jsanalysis/abstractdomain/Environment.java:100-104 | throws a null dereference exactly when the name is unbound; otherwise a fresh environment with the name's variable joined with the new one |
| EnvironmentDomain.Environment.Join | js-analysis/src/main/java/multidiffplus/jsanalysis/abstractdomain/Environment.java:113-141 | the loop over the argument's bindings builds a fresh environment holding exactly the joined map |
| EnvironmentDomain.Environment.Equals | js-analysis/src/main/java/multidiffplus/jsanalysis/abstractdomain/Environment.java:153-167 | equals holds exactly when both environments bind the same names to variables of the same name |
| ScratchpadDomain.Make | js-analysis/src/main/java/multidiffplus/jsanalysis/abstractdomain/Scratchpad.java:18-21 | a null return value becomes bottom and null arguments an empty array; given ones are kept |
| ScratchpadDomain.Empty | js-analysis/src/main/java/multidiffplus/jsanalysis/abstractdomain/Scratchpad.java:13-16 | the empty scratchpad is the one built from two nulls: a well-formed bottom return value and no arguments |
| ScratchpadDomain.StrongUpdate | js-analysis/src/main/java/multidiffplus/jsanalysis/abstractdomain/Scratchpad.java:52-54 | a strong update is the scratchpad built from the new return value and arguments alone |
| ScratchpadDomain.StrongUpdateForgetsReceiver | js-analysis/src/main/java/multidiffplus/jsanalysis/abstractdomain/Scratchpad.java:52-54 | the result of a strong update does not depend on the receiver |
| ScratchpadDomain.JoinArgs | js-analysis/src/main/java/multidiffplus/jsanalysis/abstractdomain/Scratchpad.java:76-87 | the joined arguments are as long as the longer side; positions past one side copy the other, shared positions are joined |
| ScratchpadDomain.JoinArgsLaws | js-analysis/src/main/java/multidiffplus/jsanalysis/abstractdomain/Scratchpad.java:76-87 | joining with no arguments keeps the arguments, and small well-formed arguments joined with themselves are kept |
| ScratchpadDomain.JoinArg | js-analysis/src/main/java/multidiffplus/jsanalysis/abstractdomain/Scratchpad.java:80-86 | one pass of the loop: the position is copied from the side that alone has it, or the two arguments are joined |
| ScratchpadDomain.JoinArgsArray | js-analysis/src/main/java/multidiffplus/jsanalysis/abstractdomain/Scratchpad.java:76-87 | the new array, as long as the longer argument list, holds exactly the joined arguments |
| ScratchpadDomain.Join | js-analysis/src/main/java/multidiffplus/jsanalysis/abstractdomain/Scratchpad.java:72-91 | the loop fills a new array with exactly the joined arguments, and the return values are joined |
| ScratchpadDomain.WeakUpdate | js-analysis/src/main/java/multidiffplus/jsanalysis/abstractdomain/Scratchpad.java:61-63 | a weak update joins the new return value (bottom for null) into the old one and joins the arguments with themselves |
| ScratchpadDomain.WeakUpdateWidensLargeArgs | js-analysis/src/main/java/multidiffplus/jsanalysis/abstractdomain/Scratchpad.java:61-63 | an argument with six addresses is widened to TOP by a weak update, so weakUpdate does not always keep the arguments |
| ControlConditionDomain.Update | js-analysis/src/main/java/multidiffplus/jsanalysis/abstractdomain/ControlCondition.java:48-81 | update adds the edge's condition exactly when it is changed (convU CHANGED), then negates every sibling condition, and negates changed sibling conditions in any case |
| ControlConditionDomain.UpdateMonotone | js-analysis/src/main/java/multidiffplus/jsanalysis/abstractdomain/ControlCondition.java:50-78 | update never removes a condition or a negated condition, adds a new condition of the edge exactly when it is changed, and negates only sibling conditions |
| ControlConditionDomain.Join | js-analysis/src/main/java/multidiffplus/jsanalysis/abstractdomain/ControlCondition.java:88-102 | the negated conditions are united; a condition survives exactly when it is on either side and negated on neither; the two sets are disjoint |
| ControlConditionDomain.JoinLaws | js-analysis/src/main/java/multidiffplus/jsanalysis/abstractdomain/ControlCondition.java:88-102 | join is commutative and associative, and idempotent on states whose two sets are disjoint |
| ControlConditionDomain.IsChanged | js-analysis/src/main/java/multidiffplus/jsanalysis/abstractdomain/ControlCondition.java:104-106 | isChanged holds exactly when there is a condition |
| ControlConditionDomain.IsChangedJoin | js-analysis/src/main/java/multidiffplus/jsanalysis/abstractdomain/ControlCondition.java:88-106 | a joined state is changed only if one of the sides is |
| ControlConditionDomain.IdText | js-analysis/src/main/java/multidiffplus/jsanalysis/abstractdomain/ControlCondition.java:118-120 | a printed id (or "null") is non-empty and holds no comma |
| ControlConditionDomain.Pieces | js-analysis/src/main/java/multidiffplus/jsanalysis/abstractdomain/ControlCondition.java:113-122 | the pieces are non-empty, comma-free and at most one per condition |
| ControlConditionDomain.PiecesAllIds | js-analysis/src/main/java/multidiffplus/jsanalysis/abstractdomain/ControlCondition.java:119-121 | when every condition has an id there is exactly one piece per condition, its printed id |
| ControlConditionDomain.GetAddress | js-analysis/src/main/java/multidiffplus/jsanalysis/abstractdomain/ControlCondition.java:109-124 | "" without conditions; otherwise the pieces in iteration order joined by commas, throwing an index error exactly when no condition contributed a piece |
| ControlConditionDomain.AddressSplits | js-analysis/src/main/java/multidiffplus/jsanalysis/abstractdomain/ControlCondition.java:109-124 | the address splits back at the commas into the pieces it was built from |
| Traces.TraceTypes | js-analysis/src/main/java/multidiffplus/jsanalysis/trace/Trace.java:22-27 | the trace types hold exactly CObject |
| Traces.Update | js-analysis/src/main/java/multidiffplus/jsanalysis/trace/FSCI.java:26-29 | update gives a trace at the given program point |
| Traces.UpdateCall | js-analysis/src/main/java/multidiffplus/jsanalysis/trace/FSCI.java:32-36 | the call update gives the trace at the call node's id, and throws a null dereference exactly when the node has no id |
| Traces.ToAddr | js-analysis/src/main/java/multidiffplus/jsanalysis/trace/FSCI.java:39-41 | toAddr: the program point shifted left by 32 bits, with the property name |
| Traces.MakeAddr | js-analysis/src/main/java/multidiffplus/jsanalysis/trace/FSCI.java:44-46 | makeAddr: the program point shifted left by 32 bits plus the variable id, with the property name |
| Traces.ToAddrIsMakeAddrZero | js-analysis/src/main/java/multidiffplus/jsanalysis/trace/FSCI.java:39-46 | toAddr is makeAddr with variable id 0 |
| Traces.GetBase | js-analysis/src/main/java/multidiffplus/jsanalysis/trace/Trace.java:61-63 | the base of an address is a Java int (the low 32 bits of the location) |
| Traces.GetBaseMakeAddr | js-analysis/src/main/java/multidiffplus/jsanalysis/trace/Trace.java:61-63 | the base of an address made for an int variable id is that id, whatever the program point |
| Traces.MakeAddrInjective | js-analysis/src/main/java/multidiffplus/jsanalysis/trace/FSCI.java:44-46 | two addresses made at program points with int variable ids coincide only when program point and variable id both do |
| Traces.ModAddr | js-analysis/src/main/java/multidiffplus/jsanalysis/trace/Trace.java:48-54 | modAddr keeps the property, and returns the address unchanged for classes outside the trace types |
| Traces.ModAddrIdentity | js-analysis/src/main/java/multidiffplus/jsanalysis/trace/Trace.java:48-54 | since the only trace type has value 0, modAddr never changes an address |
| Traces.IntsToBigIntegerAsWritten | js-analysis/src/main/java/multidiffplus/jsanalysis/trace/Trace.java:71-77 | as written, the loop discards each computed value, so the id is the program point whatever the trace |
| Traces.TracesCollideAsWritten | js-analysis/src/main/java/multidiffplus/jsanalysis/trace/Trace.java:71-77 | as written, the traces [1] and [] at program point 7 get the same id |
| Traces.TraceWord | js-analysis/src/main/java/multidiffplus/jsanalysis/trace/Trace.java:72-75 | the folded trace is a multiple of 2^32 |
| Traces.IntsToBigInteger | js-analysis/src/main/java/multidiffplus/jsanalysis/trace/Trace.java:71-77 | the corrected id keeps the program point in its low 32 bits |
| Traces.TraceWordInjective | js-analysis/src/main/java/multidiffplus/jsanalysis/trace/Trace.java:71-77 | the corrected fold tells equally long traces of Java ints apart |
| Traces.CorrectedTracesDiffer | js-analysis/src/main/java/multidiffplus/jsanalysis/trace/Trace.java:71-77 | the corrected id separates the traces [1] and [] at program point 7 |
| Annotations.DependencyLabel | js-core/src/main/java/multidiffplus/facts/Annotation.java:45-55 | the dependency label: the printed ids joined by commas |
| Annotations.DependencyLabelSplits | js-core/src/main/java/multidiffplus/facts/Annotation.java:45-55 | the dependency label is empty exactly when there are no ids, and otherwise splits at the commas back into the printed ids |
| Annotations.GetDependencyLabel | js-core/src/main/java/multidiffplus/facts/Annotation.java:45-55 | the loop's result, with the last comma cut off, is the ids joined by commas ("" without ids) |
| Annotations.LabelTail | js-core/src/main/java/multidiffplus/facts/Annotation.java:49-54 | what the loop leaves is the joined ids plus one trailing comma |
| Annotations.ToString | js-core/src/main/java/multidiffplus/facts/Annotation.java:79-89 | toString is "Annotation: <label\|line,pos,len,{" followed by the ids joined by commas and "}>" |
| Annotations.AppendIds | js-core/src/main/java/multidiffplus/facts/Annotation.java:83-85 | the loop appends each id followed by a comma, in iteration order |
| Annotations.HeaderEndsWithBrace | js-core/src/main/java/multidiffplus/facts/Annotation.java:81-82 | the fixed part of toString ends with "{" |
| Annotations.TrailingTail | js-core/src/main/java/multidiffplus/facts/Annotation.java:86-88 | after the loop the text ends with "{" exactly when there are no ids, and otherwise cutting the last comma gives the joined ids |
| Annotations.EqualsAsWritten | js-core/src/main/java/multidiffplus/facts/Annotation.java:70-78 | equals as written: the labels by value, and the boxed position and length by reference, which agree only inside the Integer cache |
| Annotations.EqualsAsWrittenMissesLargePositions | js-core/src/main/java/multidiffplus/facts/Annotation.java:74 | as written, two annotations with the same label at position 200 and length 3 are not equal, because position and length are compared as boxed Integer references |
| Annotations.Equals | js-core/src/main/java/multidiffplus/facts/Annotation.java:69-77 | equals (label, position and length; the line and ids ignored) holds exactly when the fact bases' comparator calls the two annotations the same |
| Annotations.EqualsAsWrittenSmall | js-core/src/main/java/multidiffplus/facts/Annotation.java:74 | for positions and lengths between -128 and 127, which Java boxes to shared Integers, the written equals is the intended one |
| Annotations.Compare | js-core/src/main/java/multidiffplus/commit/AnnotationFactBase.java:48-55 | the comparator: by position ascending, then by length descending, then by label |
| Annotations.CompareZero | js-core/src/main/java/multidiffplus/commit/AnnotationFactBase.java:47-55 | the comparator returns 0 exactly for annotations with the same position, length and label |
| Annotations.CompareAntisymmetric | js-core/src/main/java/multidiffplus/commit/AnnotationFactBase.java:47-55 | swapping the arguments negates the comparator's result |
| Annotations.LessTransitive | js-core/src/main/java/multidiffplus/commit/AnnotationFactBase.java:47-55 | the order the comparator defines (position ascending, then length descending, then label) is transitive |
| Annotations.LessIrreflexive | js-core/src/main/java/multidiffplus/commit/AnnotationFactBase.java:47-55 | no annotation comes before itself |
| Annotations.SortedUnique | js-core/src/main/java/multidiffplus/commit/AnnotationFactBase.java:47-55 | two sorted sequences with the same annotations are the same sequence, whatever order they were added in |
| Annotations.InsertKeepsSorted | js-core/src/main/java/multidiffplus/commit/AnnotationFactBase.java:64-66 | inserting an annotation between the smaller and the greater ones keeps the sequence sorted |
| Annotations.NotRepresentedBetween | js-core/src/main/java/multidiffplus/commit/AnnotationFactBase.java:64-66 | an annotation that falls strictly between two neighbours is not yet held under the comparator |
| FactBases.SortedAnnotations.constructor | js-core/src/main/java/multidiffplus/commit/AnnotationFactBase.java:47-55 | a new sorted annotation set is empty |
| FactBases.SortedAnnotations.Add | js-core/src/main/java/multidiffplus/commit/AnnotationFactBase.java:64-66 | adding keeps the set sorted; an annotation the comparator identifies with a held one changes nothing, and a new one is the only element added |
| FactBases.SortedAnnotations.AddAll | js-core/src/main/java/multidiffplus/commit/AnnotationFactBase.java:73-75 | after adding a set, every annotation of it is held (up to the comparator), nothing held is lost and nothing else is added |
| FactBases.SortedAnnotations.IsEmpty | js-core/src/main/java/multidiffplus/commit/AnnotationFactBase.java:87-89 | isEmpty holds exactly when no annotation is held |
| FactBases.SortedAnnotations.Pop | js-core/src/main/java/multidiffplus/commit/AnnotationFactBase.java:96-100 | pop on an empty set throws NoSuchElement; otherwise it returns and removes the least annotation, which comes before every remaining one |
| FactBases.AnnotationFactBase.constructor | js-core/src/main/java/multidiffplus/commit/AnnotationFactBase.java:41-57 | a new fact base for a file change has no annotations |
| FactBases.AnnotationFactBase.Register | js-core/src/main/java/multidiffplus/commit/AnnotationFactBase.java:64-66 | registerAnnotationFact stores an annotation once per comparator class and keeps the order |
| FactBases.AnnotationFactBase.RegisterAll | js-core/src/main/java/multidiffplus/commit/AnnotationFactBase.java:73-75 | registerAnnotationFacts stores every annotation of the set, losing nothing held |
| FactBases.AnnotationFactBase.IsEmpty | js-core/src/main/java/multidiffplus/commit/AnnotationFactBase.java:87-89 | isEmpty holds exactly when there are no annotations |
| FactBases.AnnotationFactBase.Pop | js-core/src/main/java/multidiffplus/commit/AnnotationFactBase.java:96-100 | pop returns and removes the annotation that comes first in the file, or throws NoSuchElement when there is none |
| FactBases.AnnotationFactBases.constructor | js-core/src/main/java/multidiffplus/commit/AnnotationFactBase.java:18 | the instance map starts empty, so every registered fact base belongs to the file it is registered under |
| FactBases.AnnotationFactBases.GetInstance | js-core/src/main/java/multidiffplus/commit/AnnotationFactBase.java:25-32 | getInstance returns the registered fact base for the file, or registers and returns a new empty one; either way the fact base belongs to that file and is sorted, and every registered fact base still belongs to its own file |
| FactBases.AnnotationFactBases.RemoveInstance | js-core/src/main/java/multidiffplus/commit/AnnotationFactBase.java:37-39 | removeInstance drops the file's entry and nothing else, and every remaining fact base still belongs to its own file |
| FactBases.SameInstanceTwice | js-core/src/main/java/multidiffplus/commit/AnnotationFactBase.java:25-32 | asking twice for the same file change gives the same fact base, which belongs to that file and is then registered |
| FactBases.Increment | js-core/src/main/java/multidiffplus/facts/MiningFactBase.java:70-86 | a Java Integer increment adds 1 below Integer.MAX_VALUE and wraps to Integer.MIN_VALUE at it |
| FactBases.MiningFactBase.constructor | js-core/src/main/java/multidiffplus/facts/MiningFactBase.java:44-65 | the three counters start at 0 and there are no annotations |
| FactBases.MiningFactBase.IncrementInsertedStatements | js-core/src/main/java/multidiffplus/facts/MiningFactBase.java:70-72 | increments the inserted count and leaves the other counters alone |
| FactBases.MiningFactBase.IncrementRemovedStatements | js-core/src/main/java/multidiffplus/facts/MiningFactBase.java:77-79 | increments the removed count and leaves the other counters alone |
| FactBases.MiningFactBase.IncrementUpdatedStatements | js-core/src/main/java/multidiffplus/facts/MiningFactBase.java:84-86 | increments the updated count and leaves the other counters alone |
| FactBases.MiningFactBase.GetInsertedStatements | js-core/src/main/java/multidiffplus/facts/MiningFactBase.java:91-93 | returns the inserted count |
| FactBases.MiningFactBase.GetRemovedStatements | js-core/src/main/java/multidiffplus/facts/MiningFactBase.java:105-107 | returns the removed count |
| FactBases.MiningFactBase.GetUpdatedStatementsAsWritten | js-core/src/main/java/multidiffplus/facts/MiningFactBase.java:98-100 | as written, getUpdatedStatements returns the inserted count |
| FactBases.MiningFactBase.GetUpdatedStatements | js-core/src/main/java/multidiffplus/facts/MiningFactBase.java:95-100 | the corrected getter returns the updated count |
| FactBases.UpdatedCountAsWritten | js-core/src/main/java/multidiffplus/facts/MiningFactBase.java:84-100 | after one updated and no inserted statement, the getter as written reports 0 and the corrected one 1 |
| FactBases.MiningFactBase.Register | js-core/src/main/java/multidiffplus/facts/MiningFactBase.java:114-116 | registerAnnotationFact stores an annotation once per comparator class and keeps the order |
| FactBases.MiningFactBase.RegisterAll | js-core/src/main/java/multidiffplus/facts/MiningFactBase.java:123-125 | registerAnnotationFacts stores every annotation of the set, losing nothing held |
| FactBases.MiningFactBase.IsEmpty | js-core/src/main/java/multidiffplus/facts/MiningFactBase.java:137-139 | isEmpty holds exactly when there are no annotations |
| FactBases.MiningFactBases.constructor | js-core/src/main/java/multidiffplus/facts/MiningFactBase.java:17 | the instance map starts empty, so every registered fact base belongs to the file it is registered under |
| FactBases.MiningFactBases.GetInstance | js-core/src/main/java/multidiffplus/facts/MiningFactBase.java:28-35 | getInstance returns the registered fact base, or registers and returns a new one with zero counters and no annotations; either way the fact base belongs to that file and is well formed, and every registered fact base still belongs to its own file |
| FactBases.MiningFactBases.RemoveInstance | js-core/src/main/java/multidiffplus/facts/MiningFactBase.java:40-42 | removeInstance drops the file's entry and nothing else, and every remaining fact base still belongs to its own file |
| HtmlViewer.Escape | js-diff/src/main/java/multidiffplus/jsdiff/view/HTMLMultiDiffViewer.java:85-94 | an escaped character holds no angle bracket |
| HtmlViewer.EscapeAllHasNoBrackets | js-diff/src/main/java/multidiffplus/jsdiff/view/HTMLMultiDiffViewer.java:85-94 | the escaped source holds no angle bracket, so every bracket of the output belongs to a span tag |
| HtmlViewer.TextOfIsEscapedChars | js-diff/src/main/java/multidiffplus/jsdiff/view/HTMLMultiDiffViewer.java:85-94 | the output with its span tags stripped is the escaped text of the characters written |
| HtmlViewer.ViewCharsAreChars | js-diff/src/main/java/multidiffplus/jsdiff/view/HTMLMultiDiffViewer.java:85-94 | the characters the view counts are those written |
| HtmlViewer.Snoc | js-diff/src/main/java/multidiffplus/jsdiff/view/HTMLMultiDiffViewer.java:43-96 | writing one more piece appends its rendering and takes one step of the view |
| HtmlViewer.BooksAfterClose | js-diff/src/main/java/multidiffplus/jsdiff/view/HTMLMultiDiffViewer.java:46-51 | closing the spans due at i settles the close bookkeeping up to i + 1 |
| HtmlViewer.Repeat | js-diff/src/main/java/multidiffplus/jsdiff/view/HTMLMultiDiffViewer.java:47-50 | n copies of a piece |
| HtmlViewer.Reopens | js-diff/src/main/java/multidiffplus/jsdiff/view/HTMLMultiDiffViewer.java:54-60 | the reopened tags are the open tags, the oldest first |
| HtmlViewer.ClearCount | js-diff/src/main/java/multidiffplus/jsdiff/view/HTMLMultiDiffViewer.java:46-51 | clearing a position's entry removes as many pending closes as it counted |
| HtmlViewer.CloseWritten | js-diff/src/main/java/multidiffplus/jsdiff/view/HTMLMultiDiffViewer.java:47-50 | one more closing tag at i is counted as a close at position i |
| HtmlViewer.WriteCloses | js-diff/src/main/java/multidiffplus/jsdiff/view/HTMLMultiDiffViewer.java:47-50 | the inner loop writes n closing tags, pops n open tags, and counts n closes at position i |
| HtmlViewer.CloseDue | js-diff/src/main/java/multidiffplus/jsdiff/view/HTMLMultiDiffViewer.java:46-51 | exactly as many closing tags as closeAt counts at i are written, as many tags popped, and the entry removed |
| HtmlViewer.ReopenWritten | js-diff/src/main/java/multidiffplus/jsdiff/view/HTMLMultiDiffViewer.java:55-59 | reopening one more open tag, after the newer ones |
| HtmlViewer.ReopenAll | js-diff/src/main/java/multidiffplus/jsdiff/view/HTMLMultiDiffViewer.java:54-60 | after a line break every open tag is reopened, the oldest first, and nothing else changes |
| HtmlViewer.CloseForLineBreak | js-diff/src/main/java/multidiffplus/jsdiff/view/HTMLMultiDiffViewer.java:63-64 | before a line break one closing tag per open tag is written, and the tags stay open |
| HtmlViewer.BooksAfterOpen | js-diff/src/main/java/multidiffplus/jsdiff/view/HTMLMultiDiffViewer.java:74-79 | opening an annotation schedules one more close at its position plus its length |
| HtmlViewer.OpenWritten | js-diff/src/main/java/multidiffplus/jsdiff/view/HTMLMultiDiffViewer.java:67-79 | opening an annotation at i writes its span right before the character at its position |
| HtmlViewer.OpenOne | js-diff/src/main/java/multidiffplus/jsdiff/view/HTMLMultiDiffViewer.java:69-79 | opening one annotation writes its span, pushes it on the open tags and counts one more close at its end |
| HtmlViewer.CharWritten | js-diff/src/main/java/multidiffplus/jsdiff/view/HTMLMultiDiffViewer.java:85-94 | writing the character at i extends the text written by that character |
| HtmlViewer.WriteChar | js-diff/src/main/java/multidiffplus/jsdiff/view/HTMLMultiDiffViewer.java:85-94 | the character at i is written with '<' as "&#60" and '>' as "&#62" |
| HtmlViewer.Accounted | js-diff/src/main/java/multidiffplus/jsdiff/view/HTMLMultiDiffViewer.java:29-33 | after popping n annotations, all of them but the last at a position of at most 0, every annotation is left, the last popped, or at a position of at most 0 |
| HtmlViewer.SkipLeading | js-diff/src/main/java/multidiffplus/jsdiff/view/HTMLMultiDiffViewer.java:29-33 | the leading loop pops annotations until one with a positive position; the ones discarded are at a position of at most 0, and when none is positive the last one is kept |
| HtmlViewer.Opens | js-diff/src/main/java/multidiffplus/jsdiff/view/HTMLMultiDiffViewer.java:69-79 | one opening tag per annotation opened, in order |
| HtmlViewer.TakeNext | js-diff/src/main/java/multidiffplus/jsdiff/view/HTMLMultiDiffViewer.java:81 | the next annotation is popped from the fact base, or there is none when it is empty; the annotations left stay in order at or after i and every one is opened, still to come, or at a position of at most 0 |
| HtmlViewer.OpenNext | js-diff/src/main/java/multidiffplus/jsdiff/view/HTMLMultiDiffViewer.java:69-81 | one round of the opening loop writes exactly the current annotation's opening tag, pushes it on the open tags and takes the next annotation, leaving fewer to take |
| HtmlViewer.OpenStarting | js-diff/src/main/java/multidiffplus/jsdiff/view/HTMLMultiDiffViewer.java:67-82 | every annotation at position i is opened, in order, each popped after its predecessor opened; exactly their opening tags are written and they are pushed on the open tags, the last opened on top |
| HtmlViewer.LineBreaks | js-diff/src/main/java/multidiffplus/jsdiff/view/HTMLMultiDiffViewer.java:53-64 | after a line break (the previous character is '\n') every open tag is reopened, the oldest first; then, when the current character is '\n', one closing tag per open tag is written; nothing else is written |
| HtmlViewer.Advance | js-diff/src/main/java/multidiffplus/jsdiff/view/HTMLMultiDiffViewer.java:43-95 | one character of the loop writes, in order, the closing tags due at i (as many as closeAt counts there, each popping a tag), the line-break block for the tags left open, the opening tags of the annotations at i, and the character; the open tags become the opened ones pushed on those left; the books and the fact base stay consistent from i to i + 1 |
| HtmlViewer.WriteAll | js-diff/src/main/java/multidiffplus/jsdiff/view/HTMLMultiDiffViewer.java:43-96 | the main loop writes the whole source, one block per character, each following the line-break rule; at each position inside the source exactly as many closing tags as positive-length annotations end there, none past the end; every span opened is of an annotation inside the source |
| HtmlViewer.Annotate | js-diff/src/main/java/multidiffplus/jsdiff/view/HTMLMultiDiffViewer.java:24-100 | the output renders the pieces written; with the spans stripped it is the source with '<' and '>' escaped; every span opens at its annotation's position; at each position exactly as many closing tags are written as positive-length annotations end there, none past the end; the pieces are one block per character, each following the line-break rule (before '\n' one closing tag per span then open, after it those spans reopened, the oldest first); every annotation inside the source after position 0 is opened, one at 0 only when it is the last and no annotation lies after 0 |
| HtmlViewer.FlattenSnoc | js-diff/src/main/java/multidiffplus/jsdiff/view/HTMLMultiDiffViewer.java:43-95 | the pieces of one more character follow those written before, and the open tags become its opened annotations pushed on those its closes leave |
| HtmlViewer.BlockSnoc | js-diff/src/main/java/multidiffplus/jsdiff/view/HTMLMultiDiffViewer.java:53-64 | a block that follows the line-break rule for the tags open before it extends a run of blocks that all follow it |
| HtmlViewer.ReopenedAfterLineBreak | js-diff/src/main/java/multidiffplus/jsdiff/view/HTMLMultiDiffViewer.java:53-82 | when no span closes right after a line break, the spans reopened after it are those closed before it plus those opened at the line break, which were not closed for it; when none opened there they are exactly the spans closed before it |
| MultiDiff.StripRemovesMarksOfRoles | js-diff/web/scripts/multidiff.js:4-21 | when no role is itself a removed class, a class survives the removals exactly when it is not the mark of a role the span has |
| MultiDiff.ErasedRolesAreNotMarks | js-diff/web/scripts/multidiff.js:4-21 | none of the sixteen roles erase selects by is one of the marks it removes, so the removals do not interfere |
| MultiDiff.EraseSpanFacts | js-diff/web/scripts/multidiff.js:4-21 | after erase a span lacks the mark of each of its roles, keeps every other class, its address and its parent, and erasing again changes nothing |
| MultiDiff.EraseKeepsRows | js-diff/web/scripts/multidiff.js:4-21 | erase keeps the rows, their kind, their spans and their cells in place, and is idempotent |
| MultiDiff.LinesAreCode | js-diff/web/scripts/multidiff.js:26-29 | unslice leaves no placeholder row and no more rows than before |
| MultiDiff.LinesOfLines | js-diff/web/scripts/multidiff.js:26-29 | on a table without placeholders unslice changes no row |
| MultiDiff.LinesAppend | js-diff/web/scripts/multidiff.js:26-29 | removing the placeholders of two stretches of the table is removing them from each |
| MultiDiff.LineOfCode | js-diff/web/scripts/multidiff.js:26-29 | every code row survives unslice, at the place after the code rows before it |
| MultiDiff.UnsliceTwice | js-diff/web/scripts/multidiff.js:26-29 | unslicing twice is unslicing once |
| MultiDiff.ShownAllNear | js-diff/web/scripts/multidiff.js:50-57 | after showContext on each of a list of rows, a row is shown exactly when it was shown or lies within two rows of one of them |
| MultiDiff.RowsWithSelects | js-diff/web/scripts/multidiff.js:68-69 | the rows each(showContext) visits are exactly the rows with a selected span or cell, in order, each once |
| MultiDiff.RowsWithSnoc | js-diff/web/scripts/multidiff.js:68-69 | visiting one more row adds it at the end exactly when it is selected |
| MultiDiff.ShownAllSnoc | js-diff/web/scripts/multidiff.js:50-57 | showing the context of one more row after the others |
| MultiDiff.MarkAllFacts | js-diff/web/scripts/multidiff.js:68-69 | addClass adds the mark to exactly the spans with the class, keeps everything else, and changes which rows a selector picks only for the mark's own class |
| MultiDiff.Placed | js-diff/web/scripts/multidiff.js:248-266 | the placed table is at least as long as the table and ends with its last row, shown as it was |
| MultiDiff.PlacedSnoc | js-diff/web/scripts/multidiff.js:248-266 | one more row is placed after the placed prefix, with a shown placeholder before it exactly when it starts a hidden run |
| MultiDiff.PlacedAllShown | js-diff/web/scripts/multidiff.js:248-266 | when every row is shown, addPlaceholders changes nothing |
| MultiDiff.PlacedLines | js-diff/web/scripts/multidiff.js:248-266 | addPlaceholders never drops or reorders a code row: unslice gives the table back |
| MultiDiff.PlacedRuns | js-diff/web/scripts/multidiff.js:248-266 | on a table without placeholders, every placeholder is shown and directly precedes the first row of a hidden run, and every hidden row follows a placeholder or another hidden row |
| MultiDiff.RunsSnoc | js-diff/web/scripts/multidiff.js:248-266 | appending one row, after a placeholder exactly when it starts a hidden run, keeps both placement properties |
| MultiDiff.PartialAdvance | js-diff/web/scripts/multidiff.js:256-262 | moving past one row of the original table places it, with its pending placeholder |
| MultiDiff.HiddenStep | js-diff/web/scripts/multidiff.js:256-258 | each step of the loop over hidden rows moves past one hidden row of the original table |
| MultiDiff.HiddenExit | js-diff/web/scripts/multidiff.js:256-258 | the loop over hidden rows stops after at least one hidden row, on a shown row or past the end |
| MultiDiff.ShownStep | js-diff/web/scripts/multidiff.js:260-262 | each step of the loop over shown rows moves past one shown row of the original table |
| MultiDiff.ShownExit | js-diff/web/scripts/multidiff.js:260-262 | the loop over shown rows stops on a hidden row or past the end |
| MultiDiff.PartialEnd | js-diff/web/scripts/multidiff.js:252-264 | once the cursor has run past the end, the table is the placed table |
| MultiDiff.Up | js-diff/web/scripts/multidiff.js:94 | the parent span of a span, when it has one, comes before it in its row |
| MultiDiff.Chain | js-diff/web/scripts/multidiff.js:82-95 | the walk from a span outwards starts at it and stays among the row's spans |
| MultiDiff.Nearest | js-diff/web/scripts/multidiff.js:82-95 | the span found from a click lies on the walk outwards and has the def or the use role |
| MultiDiff.NearestIsFirstInChain | js-diff/web/scripts/multidiff.js:82-95 | the span found is the first on the walk outwards with one of the roles, and there is none exactly when no span on the walk has one |
| MultiDiff.ElementAt | js-diff/web/scripts/multidiff.js:104-124 | getSpanElement returns a span of the clicked row with one of the two roles, and nothing when the click was not on a span |
| MultiDiff.IdsAreElementAddress | js-diff/web/scripts/multidiff.js:78-124 | getIDs finds ids exactly when getSpanElement finds a span, and they are that span's address split at commas |
| MultiDiff.Document.GetIDs | js-diff/web/scripts/multidiff.js:78-99 | the loop returns the address, split at commas, of the first span outwards from the click with one of the roles, or null |
| MultiDiff.Document.GetSpanElement | js-diff/web/scripts/multidiff.js:104-124 | the loop returns the first span outwards from the click with one of the roles, or null |
| MultiDiff.CheckIDs | js-diff/web/scripts/multidiff.js:129-140 | true exactly when there is no list, at most one element, or every element's split address equals the first one's, piece by piece |
| MultiDiff.CheckIDsIsPositional | js-diff/web/scripts/multidiff.js:129-140 | addresses with the same ids in another order are not the same |
| MultiDiff.InRowFacts | js-diff/web/scripts/multidiff.js:157 | the spans of a row with a class are exactly those spans, in order |
| MultiDiff.SelectFacts | js-diff/web/scripts/multidiff.js:157 | a class selector yields exactly the spans with the class, in document order, each once |
| MultiDiff.Count | js-diff/web/scripts/multidiff.js:158-160 | the inner loop over the ids finds at most one hit per id |
| MultiDiff.CountPositive | js-diff/web/scripts/multidiff.js:158-160 | an address is hit at least once exactly when it holds one of the ids |
| MultiDiff.HitsCount | js-diff/web/scripts/multidiff.js:157-167 | each selected span is collected once per id its address holds, and nothing else is collected |
| MultiDiff.HitsFirst | js-diff/web/scripts/multidiff.js:157-167 | nothing is collected exactly when no selected span holds an id, and otherwise the first collected is the first selected span that holds one |
| MultiDiff.HitsAreMatched | js-diff/web/scripts/multidiff.js:157-167 | a span is collected exactly when it is retagged |
| MultiDiff.RetaggedFacts | js-diff/web/scripts/multidiff.js:161 | retagging changes the classes of the chosen spans and nothing else |
| MultiDiff.RetagStep | js-diff/web/scripts/multidiff.js:161 | retagging one more span of a partly retagged table is retagging one more span; retagging a span twice changes nothing |
| MultiDiff.MatchedSpans | js-diff/web/scripts/multidiff.js:157-167 | the spans gotoDef and defUse mark are exactly those with the role whose address shares an id |
| MultiDiff.Document.MarkMatches | js-diff/web/scripts/multidiff.js:157-167 | the loop over the selection retags exactly the spans sharing an id and collects each once per shared id |
| MultiDiff.Document.MarkOne | js-diff/web/scripts/multidiff.js:158-165 | the loop over the ids for one span retags it when it shares an id and collects it once per shared id |
| MultiDiff.Moved | js-diff/web/scripts/multidiff.js:147-150 | the clicked span is found again, unchanged, once unslice has removed the placeholders |
| MultiDiff.Clicked | js-diff/web/scripts/multidiff.js:147-153 | the span gotoDef starts from is in the cleared table and has the def or the use role |
| MultiDiff.ContextShown | js-diff/web/scripts/multidiff.js:178-182 | the slice shows exactly the rows within two rows of the clicked row or of a collected span |
| MultiDiff.GotoDefDone | js-diff/web/scripts/multidiff.js:145-151 | without a span with one of the roles at the click, gotoDef only erases and unslices, and otherwise it always scrolls, slices or throws |
| MultiDiff.FoundEmpty | js-diff/web/scripts/multidiff.js:157-167 | no definition is collected exactly when none shares an id, and then nothing is retagged |
| MultiDiff.FoundFirst | js-diff/web/scripts/multidiff.js:157-175 | the first definition collected is the first in document order that shares an id |
| MultiDiff.FoundRows | js-diff/web/scripts/multidiff.js:178-182 | the rows of the collected definitions are those of the marked ones |
| MultiDiff.ConcludedSlices | js-diff/web/scripts/multidiff.js:169-184 | a slice happens only on two or more collected definitions, and unslicing it gives the marked table back |
| MultiDiff.UnsliceSlice | js-diff/web/scripts/multidiff.js:26-29 | unslice undoes addPlaceholders on a table without placeholders |
| MultiDiff.GotoDefFails | js-diff/web/scripts/multidiff.js:169-174 | gotoDef throws (elements[0] is undefined) exactly when no definition shares an id of the clicked span, having marked that span a use and left every row shown |
| MultiDiff.GotoDefScrollsToFirst | js-diff/web/scripts/multidiff.js:169-175 | gotoDef scrolls only to the first definition in document order that shares one of the clicked span's ids, with every row shown |
| MultiDiff.GotoDefMarksClicked | js-diff/web/scripts/multidiff.js:153-163 | the clicked span ends marked as a definition when it has the def role, and as a use otherwise |
| MultiDiff.GotoDefSlices | js-diff/web/scripts/multidiff.js:176-184 | when the definitions' ids differ, unslicing gives back the marked table, more than one definition was collected, and the rows shown are exactly those near the clicked span or a marked definition |
| MultiDiff.Document.GotoDef | js-diff/web/scripts/multidiff.js:145-186 | gotoDef leaves the outcome, the rows and their visibility that GotoDefResult gives |
| MultiDiff.Document.GotoDefAt | js-diff/web/scripts/multidiff.js:153-185 | from the span found, the marks, the collected definitions and the conclusion are those of GotoDefFrom |
| MultiDiff.Document.Conclude | js-diff/web/scripts/multidiff.js:169-184 | checkIDs, then the scroll, the TypeError on no definition, or the slice, as Concluded gives |
| MultiDiff.MarkedAfterTag | js-diff/web/scripts/multidiff.js:206-227 | marking the definitions leaves the set of uses to mark as it was |
| MultiDiff.DefUseMarksSpans | js-diff/web/scripts/multidiff.js:206-227 | defUse gives exactly the definitions sharing an id the class definition and the uses sharing one the class use, keeping their other classes and addresses |
| MultiDiff.DefUseSlices | js-diff/web/scripts/multidiff.js:196-229 | when slicing, the rows shown are exactly those within two rows of a marked definition or use, and unslicing gives back the marked table |
| MultiDiff.DefUseEmptyAddress | js-diff/web/scripts/multidiff.js:192-202 | on an element with an empty address defUse stops after erasing; when slicing every row is left hidden and no placeholder goes in |
| MultiDiff.DefUseKeepsRows | js-diff/web/scripts/multidiff.js:190-231 | without a slice defUse changes no row's visibility and adds or removes no row |
| MultiDiff.Document.DefUse | js-diff/web/scripts/multidiff.js:190-231 | defUse leaves the rows and their visibility that DefUseResult gives |
| MultiDiff.Document.DefUseMark | js-diff/web/scripts/multidiff.js:205-229 | the two marking passes and, when slicing, the placeholders |
| MultiDiff.Document.MarkAndShow | js-diff/web/scripts/multidiff.js:206-227 | one pass retags the spans with the role sharing an id and, when slicing, shows the context of each collected span |
| MultiDiff.Document.FindUses | js-diff/web/scripts/multidiff.js:269-271 | findUses is defUse, slicing, on the nearest span around the click with one of the roles |
| MultiDiff.NearRowsWith | js-diff/web/scripts/multidiff.js:68-69 | a row is near a visited row exactly when it lies within two rows of a row the selector picks |
| MultiDiff.AllMarks | js-diff/web/scripts/multidiff.js:62-73 | all marks every def span criterion and every use span dependency, keeping their other classes and addresses |
| MultiDiff.AllShowsNear | js-diff/web/scripts/multidiff.js:62-73 | all shows exactly the rows within two rows of a row with a def or a use span, and unslicing gives back the marked table |
| MultiDiff.AllSelects | js-diff/web/scripts/multidiff.js:68-69 | the marks all adds change neither the rows nor which rows the two roles select |
| MultiDiff.AllVisible | js-diff/web/scripts/multidiff.js:66-69 | hiding every row and showing the context of the def rows and then of the use rows shows exactly the rows near either |
| MultiDiff.Document.All | js-diff/web/scripts/multidiff.js:62-73 | all leaves the rows and their visibility that AllResult gives |
| MultiDiff.SliLineShowsChanges | js-diff/web/scripts/multidiff.js:234-245 | sliLine shows exactly the rows within two rows of an inserted or a deleted line, and unslicing gives the cleared table back |
| MultiDiff.Document.SliLine | js-diff/web/scripts/multidiff.js:234-245 | sliLine leaves the rows and their visibility that SliLineResult gives |
| MultiDiff.KeyCommandKnown | js-diff/web/scripts/multidiff.js:286-330 | a key runs a command exactly when it is one of the thirteen keys of the menu |
| MultiDiff.CommandMarksAreErased | js-diff/web/scripts/multidiff.js:273-283 | every mark a menu command adds is one erase removes again, on the same role |
| MultiDiff.Document.SwitchMenuSelection | js-diff/web/scripts/multidiff.js:286-330 | each key runs its command on the table with the roles its wrapper fixes, and an unknown key changes nothing |
| MultiDiff.Document.constructor | js-diff/web/scripts/multidiff.js:26-29 | a fresh table shows every row |
| MultiDiff.Document.Erase | js-diff/web/scripts/multidiff.js:4-21 | erase replaces the rows by their erased form and keeps their visibility |
| MultiDiff.Document.Unslice | js-diff/web/scripts/multidiff.js:26-29 | unslice removes the placeholders and shows every row |
| MultiDiff.Document.HideRows | js-diff/web/scripts/multidiff.js:34-36 | hideRows hides every row and keeps the rows |
| MultiDiff.Document.ShowContext | js-diff/web/scripts/multidiff.js:50-57 | showContext shows the row and the two rows before and after it, where they exist |
| MultiDiff.Document.Reveal | js-diff/web/scripts/multidiff.js:68-69 | each(showContext) over a selection shows the context of every row it picks |
| MultiDiff.Document.ShowAround | js-diff/web/scripts/multidiff.js:180-182 | showContext on the row of each collected span |
| MultiDiff.Document.Mark | js-diff/web/scripts/multidiff.js:68-69 | addClass on every span with the class |
| MultiDiff.Document.FirstHidden | js-diff/web/scripts/multidiff.js:250 | the first hidden row, every row before it shown |
| MultiDiff.Document.AddPlaceholders | js-diff/web/scripts/multidiff.js:248-266 | addPlaceholders leaves the table that Placed gives, whose properties PlacedLines and PlacedRuns state |
| MultiDiff.Document.InsertPlaceholder | js-diff/web/scripts/multidiff.js:254 | a shown placeholder goes in before the first row of a hidden run |
| MultiDiff.Document.SkipHidden | js-diff/web/scripts/multidiff.js:256-258 | the loop moves past the whole hidden run and no further |
| MultiDiff.Document.SkipShown | js-diff/web/scripts/multidiff.js:260-262 | the loop moves past the shown rows to the start of the next hidden run or the end |

## Left out

- The browser: jQuery's DOM, scrolling and animation are not modelled. A scroll is the outcome `ScrollTo(span)`. `unsliceAndStay` (multidiff.js:41-45) is `unslice` without its scroll adjustment.
- Row visibility is one boolean per row. The CSS `:hidden`/`:visible` tests are read from it.
- A span's class attribute is a set of classes, so the order and duplicates of classes are not modelled. A `data-address` attribute is a string split at commas.
- A span's parent is an index into its row's spans. A parent index that does not point to an earlier span ends the walk outwards, as leaving the span elements does in the DOM.
- In `defUse` the script interleaves marking and `showContext` span by span. The model marks a whole selection and then shows its context, as `all` does. Both orders give the same table, because showing context never reads a mark.
- The wrappers `allVar` … `findVal` (multidiff.js:273-283) are folded into `MultiDiff.KeyCommand`.
- The context menu's construction, its role detection and its click handlers are not modelled. This covers `getMultiDiffMenu` and the rest of multidiff.js after line 330.
- Behaviours of the script that the model keeps:
  - `erase` removes each mark only from spans with the matching role, not every mark from every span;
  - `checkIDs` compares addresses piece by piece, in order (`MultiDiff.CheckIDsIsPositional`), not as sets;
  - `gotoDef` with no matching definition throws a TypeError on `elements[0]` instead of doing nothing (`MultiDiff.GotoDefFails`);
  - `defUse` on an element with an empty address leaves every row hidden when slicing (`MultiDiff.DefUseEmptyAddress`);
  - `defUse` marks use-role spans that share an id `use`, not every span with the complementary role;
  - the menu keys are the script's (`all-var`, …), not descriptive command names.
- Java reference comparisons are modelled as value comparisons:
  - `Num.join` and `Str.join` compare `this.val == state.val` on strings;
  - `Environment.join` compares variables with `!=`;
  - `Variable.equals` starts with a `this == o` shortcut.
  String literals and shared objects make the two agree on the analysis's own inputs. `Annotation.equals` on boxed `Integer` is the exception, reported under Findings.
- Iteration over `HashSet` and `HashMap` follows an order the JVM chooses. Where a result depends on that order (dependency labels, joins built by iteration), the order is a parameter that enumerates the collection.
- The `addCriterion` and `addDependency` calls that annotate AST nodes (in `Dependencies.inject`, and in the `Store` and `Environment` operations that record criteria on variable and field names) are left out. They change nodes outside the model. The dependency sets they accompany are modelled.
- `HtmlViewer.Annotate` uses unbounded integers for `absolutePosition + length`. The overflow of Java `int` there is not modelled.
- HtmlViewer.Annotate: a `char` stands for one UTF-16 code unit, as in Java's `toCharArray`. A source string in the model is that sequence of code units; decoding characters outside the Basic Multilingual Plane into surrogate pairs is not modelled.
- HtmlViewer.Annotate: the spans are not proved to wrap exactly their annotations' ranges, because the code does not do so. Each closing tag closes the most recently opened span, so annotations that overlap without nesting close each other's spans. A zero-length annotation is scheduled to close at its own position after that position's closes were written, so its span is never closed. An annotation ending at or past the end of the source is never closed. The model keeps all three behaviours: its contract counts closes per position and does not say which span each one ends.
- `ControlConditionDomain` assumes the cast of a condition to its parenthesised expression succeeds, as the code does without a check.
- `ScratchpadDomain` does not model null elements inside the argument arrays.
- These members are not modelled:
  - `toString` (except `Annotation.toString` and `DefinerIDs.toString`, which build labels the output uses) and `clone` methods, which produce text for debugging or copy immutable values;
  - the no-argument `Store()` constructor (Store.java:31-34), which creates only the value map and leaves the object store null; the model's store always has both maps;
  - the `Scratchpad(Scratchpad)` copy constructor (Scratchpad.java:23-26), which shares the other scratchpad's return value and argument array; a model scratchpad is an immutable value, so a copy is the same value;
  - the `inject` variants that take a type argument;
  - `Store.apply(Address)`;
  - `DefinerIDs.inject`.
  The rest of the analysis does not read them.
- The loops of `Addresses.equals` and `DefinerIDs.equals` are functions over the sets they compare.
- Outside the model: the interpreters and flow analysis that produce the facts, the command-line and file I/O, the SMT checks, the line-diff study code, `HTMLUnixDiffViewer`, the factories, `Property`, `Criterion`, `Control`, and the `equals` of `Commit` and `InitVariable`.
- NumDomain.JoinCommutative: the requires excludes two BOTTOM values with different literals. `Num.join` returns the left one's literal there, so the code is not commutative on that input.
- StrDomain.JoinCommutative: the requires excludes two BOTTOM values with different literals, for the same reason.
- AddressesDomain.JoinIdempotentSmall: holds only while the doubled size stays under the cap. `Addresses.join` counts both sides before widening to TOP, so a large set joined with itself becomes TOP.
- BValueDomain.JoinIdempotentSmall: the same bound on the points-to set.
- BValueDomain.Join: joins the string, number and boolean components with the corrected `Str.join`, `Num.join` and `Bool.join` of Findings, not the code as written.
- BValueDomain.Equals: compares the components with the corrected `Str.equals` and `Num.equals` of Findings, not the code as written.

## Findings

| source | as written | input that shows it | evidently intended | confidence | as-written member | corrected member |
|---|---|---|---|---|---|---|
| js-analysis/src/main/java/multidiffplus/jsanalysis/abstractdomain/Num.java:61-68 | the NOT_NAN case comes before NOT_ZERO_NOR_NAN | joining PI with NI gives NOT_NAN, which forgets that neither is zero | check the most precise case first, giving NOT_ZERO_NOR_NAN | not executed | NumDomain.JoinAsWrittenForgetsNotZero | NumDomain.JoinAgreesWithWritten |
| js-analysis/src/main/java/multidiffplus/jsanalysis/abstractdomain/Num.java:188 | the null test compares this.val with itself, so it is always false | VAL with no literal equals VAL with "1", but not the other way round | compare this.val with the other value's val | not executed | NumDomain.EqualsAsWrittenAsymmetric | NumDomain.Equals |
| js-analysis/src/main/java/multidiffplus/jsanalysis/abstractdomain/Str.java:32-34 | the guard of the one-argument constructor reads the field, which is still null | new Str(SNUMVAL) is accepted | reject a VAL element given without a value | not executed | StrDomain.MakeStrAsWrittenAcceptsValElement | StrDomain.MakeStr |
| js-analysis/src/main/java/multidiffplus/jsanalysis/abstractdomain/Str.java:55-56 | with a BOTTOM right side, the left element is paired with the right value | SNUMVAL "5" joined with BOTTOM loses "5" | return the left value unchanged | not executed | StrDomain.JoinAsWrittenDropsLiteral | StrDomain.Join |
| js-analysis/src/main/java/multidiffplus/jsanalysis/abstractdomain/Str.java:194 | the null test compares this.val with itself, so it is always false | SNUMVAL with no literal equals SNUMVAL with "1", but not the other way round | compare this.val with the other value's val | not executed | StrDomain.EqualsAsWrittenAsymmetric | StrDomain.Equals |
| js-analysis/src/main/java/multidiffplus/jsanalysis/abstractdomain/Bool.java:29-30 | the right operand is read from this.le, not state.le | TRUE joined with FALSE gives TRUE, which is not above FALSE | read the right operand from the argument | not executed | BoolDomain.JoinAsWrittenNotUpperBound | BoolDomain.Join |
| js-analysis/src/main/java/multidiffplus/jsanalysis/abstractdomain/BValue.java:104 | isNaN, isZero, isFalse and isAddress (also lines 118, 132 and 146) require the string component to be other than BOTTOM | an address injected into a value (string BOTTOM) is not an address | require the string component to be BOTTOM | not executed | BValueDomain.IsAddressAsWrittenRejectsInjected | BValueDomain.IsAddressIffInjected |
| js-analysis/src/main/java/multidiffplus/jsanalysis/trace/Trace.java:71-77 | BigInteger is immutable, and the loop discards every value it computes | traces [1] and [] at program point 7 get the same id | assign the shifted sum back to id | not executed | Traces.TracesCollideAsWritten | Traces.TraceWordInjective |
| js-analysis/src/main/java/multidiffplus/jsanalysis/abstractdomain/Obj.java:43 | definitelyNotProperty returns containsKey, the opposite of its name | a property the object has is reported as definitely absent | return the negation | not executed | ObjDomain.DefinitelyNotPropertyInverted | ObjDomain.DefinitelyNotProperty |
| js-core/src/main/java/multidiffplus/facts/MiningFactBase.java:97-100 | getUpdatedStatements returns the inserted count | one updated statement reads back as 0 | return updatedStatements | not executed | FactBases.UpdatedCountAsWritten | FactBases.MiningFactBase.GetUpdatedStatements |
| js-core/src/main/java/multidiffplus/facts/Annotation.java:74 | the position and length are boxed Integers compared with == | two annotations at position 200, length 3, with one label are not equal | compare with equals, as the comparator does | not executed | Annotations.EqualsAsWrittenMissesLargePositions | Annotations.Equals |
