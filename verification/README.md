# Dynamic filter engine of sb-jpa-specifications, modelled in Dafny

The application builds JPA `Specification`s in two ways:

- **Generic criteria.** `MovieSpecification` holds an ordered list of `SearchCriteria` (key, untyped value, `SearchOperation`). `toPredicate` compiles that list into the conjunction of one atomic Criteria-API condition per criterion.
- **Named conditions.** `CustomerSpecifications` provides the named conditions `customerHasName` and `customerHasNotAge`. `SpecificationChain.add` joins two of them with AND. A stream reduction folds a whole list with `add` and fails on an empty list. A loop over a query-parameter map turns its keys into named conditions.

The model replaces the Criteria API and the database with a predicate AST and an evaluator:

- A record is an abstract map from attribute name to an untyped `Value`: null, boolean, integer, string or collection.
- Evaluation follows SQL's three-valued logic (TRUE / FALSE / UNKNOWN). A record is selected exactly when the condition evaluates to TRUE.
- LIKE patterns follow the `<like predicate>` of ISO/IEC 9075-2 with no escape character. `%` matches any run of characters, `_` matches exactly one character, and any other character matches itself.
- `toString()`, `Integer.parseInt` and `toLowerCase()` are modelled as explicit functions.

Files:

- `values.dfy`: the `Wrappers` and `Values` modules, with values, records, the Java exceptions, `toString`, `parseInt` and lower-casing.
- `like.dfy`: the `Like` module, with LIKE matching and its prefix, suffix and containment lemmas.
- `predicates.dfy`: the `Predicates` module, with three-valued logic, the predicate AST and `Eval`.
- `criteria.dfy`: the `Criteria` module, with `SearchOperation`, `SearchCriteria`, `MovieSpecification.add` and `toPredicate`.
- `customers.dfy`: four modules. `CustomerSpecifications` and `SpecificationChain` hold the named conditions, `add` and the reduction. `QueryParams` holds the map-driven assembly. `Scenarios` states facts about the application's demo data. For the query-parameter map the application itself only prints the size of the assembled list, so the reduction of that list is a stated consequence, not something the application runs.

Where the code's behaviour is questionable, the model follows it as written:

- An unknown operator cannot occur, because all eleven operations have a branch.
- Unknown query-parameter keys are skipped, not rejected.
- `MATCH_END` builds `v%` (a prefix test) and `MATCH_START` builds `%v` (a suffix test), as the code does, even though the names suggest the opposite.
- `NOT_IN` is modelled literally as `not(attribute).in(value)`, not as the complement of `IN`.

## Model

| member | source | states |
|---|---|---|
| Values.ParseInt | src/main/java/com/adechinan/sbjpaspecifications/SbJpaSpecificationsApplication.java:309 | `Integer.parseInt` either returns a value in the 32-bit `int` range or raises NumberFormatException carrying the text. It succeeds only on an optional sign followed by at least one ASCII digit, so the empty text, a lone sign and any other shape are rejected. |
| Values.ParseIntOfDigits | src/main/java/com/adechinan/sbjpaspecifications/SbJpaSpecificationsApplication.java:309 | On a sign (none, `+` or `-`) followed by digits, `parseInt` gives the signed decimal value of the digits when it fits an `int`, and NumberFormatException otherwise. |
| Values.ParseIntExamples | src/main/java/com/adechinan/sbjpaspecifications/SbJpaSpecificationsApplication.java:309 | "+16" and "016" parse to 16, and "abc" raises NumberFormatException. |
| Values.ParseIntOverflow | src/main/java/com/adechinan/sbjpaspecifications/SbJpaSpecificationsApplication.java:309 | The decimal text of a number above the `int` range does not parse, and neither does the negated text of a number below it. |
| Values.ParseIntRoundTrip | src/main/java/com/adechinan/sbjpaspecifications/SbJpaSpecificationsApplication.java:309 | Parsing the text that `toString()` prints for any 32-bit integer gives that integer back, so `parseInt(value.toString())` on an integer value is that value. |
| Values.ToText | src/main/java/com/adechinan/sbjpaspecifications/SbJpaSpecificationsApplication.java:119-120 | `value.toString()` raises NullPointerException exactly when the value is null. A string value prints as itself. |
| Like.PrefixPattern | src/main/java/com/adechinan/sbjpaspecifications/SbJpaSpecificationsApplication.java:141-143 | For wildcard-free `v`, the pattern `v%` matches exactly the strings that start with `v`. |
| Like.SuffixPattern | src/main/java/com/adechinan/sbjpaspecifications/SbJpaSpecificationsApplication.java:145-147 | For wildcard-free `v`, the pattern `%v` matches exactly the strings that end with `v`. |
| Like.ContainsPattern | src/main/java/com/adechinan/sbjpaspecifications/SbJpaSpecificationsApplication.java:137-139 | For wildcard-free `v`, the pattern `%v%` matches exactly the strings that contain `v` somewhere. |
| Like.WildcardInSearchText | src/main/java/com/adechinan/sbjpaspecifications/SbJpaSpecificationsApplication.java:137-139 | The user value is pasted into the pattern unescaped, so its wildcards act as wildcards. `%a_c%` matches "abc" although "a_c" does not occur in it. |
| Predicates.In3IsMembership | src/main/java/com/adechinan/sbjpaspecifications/SbJpaSpecificationsApplication.java:149 | When no null is involved, SQL `IN` over a list is TRUE iff the value is in the list, and FALSE otherwise. |
| Predicates.In3TrueIsMembership | src/main/java/com/adechinan/sbjpaspecifications/SbJpaSpecificationsApplication.java:149 | Whatever nulls are involved, SQL `IN` over a list is TRUE iff the value is non-null and in the list. |
| Predicates.CompareTextAntisymmetric | src/main/java/com/adechinan/sbjpaspecifications/SbJpaSpecificationsApplication.java:118-129 | Comparing text `a` with `b` gives Less exactly when comparing `b` with `a` gives Greater, and the other way round. |
| Predicates.CompareTextPrefix | src/main/java/com/adechinan/sbjpaspecifications/SbJpaSpecificationsApplication.java:118-129 | A proper prefix sorts before the longer string. |
| Predicates.AllOfMatchesEvery | src/main/java/com/adechinan/sbjpaspecifications/SbJpaSpecificationsApplication.java:155 | `builder.and(predicates)` selects a record iff every one of its atomic conditions does. |
| Predicates.EmptyConjunctionMatchesAll | src/main/java/com/adechinan/sbjpaspecifications/SbJpaSpecificationsApplication.java:155 | The conjunction of no conditions selects every record. |
| Criteria.NewSpecification | src/main/java/com/adechinan/sbjpaspecifications/SbJpaSpecificationsApplication.java:102-104 | A new specification holds no criteria. |
| Criteria.Add | src/main/java/com/adechinan/sbjpaspecifications/SbJpaSpecificationsApplication.java:106-108 | `add` puts the criterion at the end. The list grows by one, and the earlier criteria stay unchanged and in order. |
| Criteria.CompileOne | src/main/java/com/adechinan/sbjpaspecifications/SbJpaSpecificationsApplication.java:117-152 | One criterion compiles to an atomic condition on its own key. An unknown attribute raises an error first. Otherwise compilation fails only when the value is null and the operation calls `toString()`, which the four ordered comparisons and the three MATCH forms do. That failure is NullPointerException. |
| Criteria.ToPredicate | src/main/java/com/adechinan/sbjpaspecifications/SbJpaSpecificationsApplication.java:110-156 | `toPredicate` succeeds iff every criterion compiles. On success the result is the conjunction of exactly one atomic condition per criterion, in list order. On failure the error is that of the first criterion that fails. |
| Criteria.EmptySpecificationMatchesAll | src/main/java/com/adechinan/sbjpaspecifications/SbJpaSpecificationsApplication.java:102-104 | A specification with no criteria compiles to a condition that every record meets. |
| Criteria.MatchIsContainment | src/main/java/com/adechinan/sbjpaspecifications/SbJpaSpecificationsApplication.java:136-139 | MATCH holds iff the attribute is a string whose lower-cased form contains the lower-cased `value.toString()`. The value must be free of wildcards. |
| Criteria.MatchEndIsPrefix | src/main/java/com/adechinan/sbjpaspecifications/SbJpaSpecificationsApplication.java:140-143 | MATCH_END holds iff the lower-cased attribute starts with the lower-cased value. This follows the code's swapped naming. |
| Criteria.MatchStartIsSuffix | src/main/java/com/adechinan/sbjpaspecifications/SbJpaSpecificationsApplication.java:144-147 | MATCH_START holds iff the lower-cased attribute ends with the lower-cased value. This follows the code's swapped naming. |
| Criteria.MatchIgnoresCase | src/main/java/com/adechinan/sbjpaspecifications/SbJpaSpecificationsApplication.java:136-139 | MATCH with "BLACK" selects a record whose title is "Black Panther". |
| Criteria.EqualAndNotEqualAreComplementary | src/main/java/com/adechinan/sbjpaspecifications/SbJpaSpecificationsApplication.java:130-135 | EQUAL holds iff the attribute is non-null and equals the raw value. When neither side is null, NOT_EQUAL holds iff EQUAL does not. |
| Criteria.OrderedComparisonsAgree | src/main/java/com/adechinan/sbjpaspecifications/SbJpaSpecificationsApplication.java:118-129 | In three-valued logic, GREATER_THAN is the negation of LESS_THAN_EQUAL, and LESS_THAN is the negation of GREATER_THAN_EQUAL. Each strict comparison implies its non-strict one. |
| Criteria.IntegerComparisonThroughText | src/main/java/com/adechinan/sbjpaspecifications/SbJpaSpecificationsApplication.java:118-129 | On an integer attribute, comparing against the text of a 32-bit integer value gives the numeric comparison, for each of the four operations. |
| Criteria.TextComparison | src/main/java/com/adechinan/sbjpaspecifications/SbJpaSpecificationsApplication.java:118-129 | On a string attribute `a`, GREATER_THAN, LESS_THAN, GREATER_THAN_EQUAL and LESS_THAN_EQUAL hold iff `a` sorts after, before, not before or not after `value.toString()`, for every non-null value. |
| Criteria.TextComparisonIsNotNumeric | src/main/java/com/adechinan/sbjpaspecifications/SbJpaSpecificationsApplication.java:118-129 | The comparison is textual even for an integer value. The title "10" is LESS_THAN the value 7 and not GREATER_THAN it. |
| Criteria.TextComparisonBothWays | src/main/java/com/adechinan/sbjpaspecifications/SbJpaSpecificationsApplication.java:124-129 | On a string attribute, GREATER_THAN_EQUAL and LESS_THAN_EQUAL both hold iff the attribute equals the value. |
| Criteria.InIsMembership | src/main/java/com/adechinan/sbjpaspecifications/SbJpaSpecificationsApplication.java:148-149 | IN holds iff the attribute is non-null and one of the supplied values, for every attribute and value. A null attribute never satisfies IN, even when null is among the values. |
| Criteria.NotInNeedsBooleanAttribute | src/main/java/com/adechinan/sbjpaspecifications/SbJpaSpecificationsApplication.java:150-151 | NOT_IN negates the attribute before the membership test, so it never holds for an attribute that is not boolean. |
| Criteria.NotInNegatesBoolean | src/main/java/com/adechinan/sbjpaspecifications/SbJpaSpecificationsApplication.java:150-151 | On a boolean attribute `b`, NOT_IN holds iff `!b` is one of the supplied values. |
| Criteria.NotInIsNotComplementOfIn | src/main/java/com/adechinan/sbjpaspecifications/SbJpaSpecificationsApplication.java:148-151 | NOT_IN is not the complement of IN. For a boolean attribute holding true and the values [true, false], both hold. |
| CustomerSpecifications.Customer | src/main/java/com/adechinan/sbjpaspecifications/SbJpaSpecificationsApplication.java:170-173 | A customer record holds its name as a string and its age as an integer. |
| CustomerSpecifications.CustomerHasName | src/main/java/com/adechinan/sbjpaspecifications/SbJpaSpecificationsApplication.java:182-184 | `customerHasName(n)` selects exactly the records whose name equals `n`. |
| CustomerSpecifications.CustomerHasNotAge | src/main/java/com/adechinan/sbjpaspecifications/SbJpaSpecificationsApplication.java:186-188 | `customerHasNotAge(n)` selects exactly the records whose age is an integer below `n`. |
| SpecificationChain.Add | src/main/java/com/adechinan/sbjpaspecifications/SbJpaSpecificationsApplication.java:220-222 | `add(a, b)` selects exactly the records that both `a` and `b` select. Its truth value is the SQL AND of theirs. |
| SpecificationChain.Reduce | src/main/java/com/adechinan/sbjpaspecifications/SbJpaSpecificationsApplication.java:290 | The reduction fails with NoSuchElementException exactly on an empty list. It returns a one-element list's sole element unchanged. |
| SpecificationChain.ReduceIsConjunction | src/main/java/com/adechinan/sbjpaspecifications/SbJpaSpecificationsApplication.java:290 | The left fold evaluates to the three-valued AND of all the list's elements. It agrees with the right-nested combination, so grouping does not matter. |
| SpecificationChain.ReduceMatchesEvery | src/main/java/com/adechinan/sbjpaspecifications/SbJpaSpecificationsApplication.java:286-290 | The reduction of a non-empty list selects a record iff every condition in the list does. |
| QueryParams.EntryFilter | src/main/java/com/adechinan/sbjpaspecifications/SbJpaSpecificationsApplication.java:304-313 | Key "name" gives `customerHasName(value.toString())`. Key "age" gives `customerHasNotAge(parseInt(value.toString()))` or the parse error. Every other key is skipped. A null key raises NullPointerException, and so does a null value under "name" or "age". |
| QueryParams.Assemble | src/main/java/com/adechinan/sbjpaspecifications/SbJpaSpecificationsApplication.java:303-314 | The `forEach` succeeds iff every entry's switch succeeds and yields at most one condition per entry. Otherwise its error is that of the first failing entry. |
| QueryParams.AssembleSingle | src/main/java/com/adechinan/sbjpaspecifications/SbJpaSpecificationsApplication.java:304-313 | A single entry yields exactly its own condition, nothing when its key is skipped, or its error. |
| QueryParams.AssembleConcat | src/main/java/com/adechinan/sbjpaspecifications/SbJpaSpecificationsApplication.java:303-314 | Iterating over `a + b` fails with `a`'s error, else with `b`'s. Otherwise it yields `a`'s conditions followed by `b`'s. With the single-entry case this fixes both the contents and the order of the list. |
| QueryParams.AssembleOnePerRecognisedKey | src/main/java/com/adechinan/sbjpaspecifications/SbJpaSpecificationsApplication.java:299-316 | A successful assembly yields one condition per entry whose key is "name" or "age", and none for any other entry. |
| QueryParams.AssembleSkipsUnknownKeys | src/main/java/com/adechinan/sbjpaspecifications/SbJpaSpecificationsApplication.java:303-314 | An entry with an unrecognised key changes nothing in the assembled list, wherever it comes in the iteration order. |
| Scenarios.NameAndAgeSelectsJacob | src/main/java/com/adechinan/sbjpaspecifications/SbJpaSpecificationsApplication.java:240-243 | Reducing `[hasName("jacob"), hasNotAge(16)]` selects customer jacob (12) and not rober (16). |
| Scenarios.SingleNameIsItself | src/main/java/com/adechinan/sbjpaspecifications/SbJpaSpecificationsApplication.java:293-297 | Reducing `[hasName("jacob")]` gives that condition itself, which selects jacob and not rober. |
| Scenarios.EmptyReductionFails | src/main/java/com/adechinan/sbjpaspecifications/SbJpaSpecificationsApplication.java:290 | Reducing an empty list raises NoSuchElementException. |
| Scenarios.QueryParamsSelectJacob | src/main/java/com/adechinan/sbjpaspecifications/SbJpaSpecificationsApplication.java:299-316 | The map {"name": "jacob", "age": 16}, taken in either iteration order, gives two conditions, which is the size the application prints. Reducing them, which the application does not do, would select jacob (12) and not rober (16). |

## Left out

- Spring Boot start-up, the `CommandLineRunner`, `saveAll`/`findAll` and the repository interfaces are left out. They are persistence I/O against an external store. "Selected" stands in for "returned by `findAll`".
- JPA and Lombok annotations are left out. Each entity is reduced to its attribute names (`attrs`) and to a record holding a value per attribute.
- Sort and `Pageable` arguments are left out. They are passed through to the executor and never interpreted.
- The `double` attributes (`rating`, `watchTime`) are left out, because values are restricted to booleans, integers, strings and collections.
- The database's coercion of text to a numeric column is not part of the source. The model fixes one choice: an integer attribute compared with text parses the text as a decimal integer, and a text that does not parse makes the comparison UNKNOWN rather than a query error.
- Text comparisons use character-code lexicographic order. Database collations are left out.
- Only ASCII letters are case-mapped. `toLowerCase`, SQL `LOWER` and Java's non-ASCII digits in `parseInt` are treated as ASCII-only.
- Two cases evaluate to UNKNOWN, so such a criterion selects nothing. One is LIKE (the three MATCH forms) on an attribute that is not a string, such as MATCH on `releaseYear` through `lower(attribute)`. The other is an ordered comparison on a boolean or collection attribute, or between a string attribute and a non-text operand. What a database does here is vendor-specific.
- Mixed-type equality (an integer attribute against a string value) is FALSE in the model. A database might coerce the two sides instead.
- The model treats an `IN` value that is a collection as the list of its elements, and any other value as a one-element list. This is how a collection bound to `in(...).value(...)` is expanded.
- Criteria.NotInNeedsBooleanAttribute: for a non-boolean attribute the model answers UNKNOWN, because what the database does with `not(attribute)` there is an open question. Whether NOT_IN was meant as non-membership is also open, so it is not claimed as a defect.
- A null `SearchCriteria`, a null operation and a null criteria list are left out. They would raise NullPointerException before any branch is taken.
- The commented-out Querydsl block, the `where(...).and/or` demo blocks and the movie demo (lines 257-282 and 323-381) are not live code. The `or` combinator appears only there, so it is not modelled.
- `System.out.println` of the results is output only and is left out.
