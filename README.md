# Verified model of the deterministic core of a Selenium QA suite

The suite tests the demoqa.com site with Selenium, pytest and BDD steps. Under the browser, HTTP and file plumbing it has a small layer of deterministic logic, and this project models that layer in Dafny and proves properties about it:

- **`ValidationHelper`** (`utils/helpers.py`): the email, phone and URL recognisers. Each regular expression is written as a character-class scanner. Each scanner is proved equivalent to a declarative description of the strings it accepts. Python's `$`, which also matches just before a final newline, is modelled.
- **`DataHelper`** (`utils/helpers.py`):
  - `clean_string`: whitespace normalisation.
  - `extract_numbers`: the values of the maximal digit runs.
  - `compare_lists`: equality after sorting.
- **`AssertionHelper`** (`utils/helpers.py`): checks that raise exactly when their comparison fails.
- **`PerformanceHelper`** (`utils/helpers.py`): a class whose two dictionaries are updated in place. The clock is an integer the caller passes in.
- **`DataGenerator`** (`utils/data_generator.py`): the test-data generators.
  - Every `random` draw is an explicit input: a stream of natural numbers, `Draws`. `randint(lo, hi)` is `lo + d % (hi - lo + 1)`, `choice` indexes by `d % len`, and `random.sample` is CPython's pool algorithm.
  - Every Faker value is an explicit input record.
- **`Settings`** (`config/settings.py`): the boolean environment flags, the page URLs and `get_browser_options`.
- **`tests/conftest.py`**: the marker rule of `pytest_collection_modifyitems`, and the browser dispatch of the `browser` and `browser_function` fixtures.

Modules:
- `Results`: `Option` and `Result`.
- `Text`: character classes, substring search, split and join, runs of a class, decimal numerals and ASCII lower-casing.
- `ValidationHelper`, `DataHelper`, `AssertionHelper`, `Performance`, `DataGenerator`, `Config` and `Conftest`.

## Model

| member | source | states |
|---|---|---|
| ValidationHelper.EmailMatchesIff | utils/helpers.py:122-126 | The email scanner accepts a string exactly when it is a non-empty local part over `[a-zA-Z0-9._%+-]`, one `@`, a non-empty domain over `[a-zA-Z0-9.-]`, a `.` and at least two ASCII letters. |
| ValidationHelper.IsValidEmailIff | utils/helpers.py:122-126 | `is_valid_email` accepts exactly those shapes, or one of them followed by a single final newline (the behaviour of `$`). |
| ValidationHelper.DomainMatchesIff | utils/helpers.py:125 | The domain part matches exactly when it splits at a `.` into a non-empty domain and a top-level part of at least two ASCII letters. |
| ValidationHelper.EmailMatchesSplit | utils/helpers.py:125 | With a local part over the local class, the address matches exactly when the local part is non-empty and the rest after `@` is a valid domain. |
| ValidationHelper.ValidEmailHasOneAt | utils/helpers.py:125 | An accepted address contains exactly one `@`, and it does not start with it. |
| ValidationHelper.MatchHasOneAt | utils/helpers.py:125 | A string the scanner matches has exactly one `@`, and it is not the first character. |
| ValidationHelper.DomainHasNoAt | utils/helpers.py:125 | A matching domain contains no `@`. |
| ValidationHelper.ValidEmailParts | utils/helpers.py:125 | For a local part without `@`, validity is the local class plus a valid domain, possibly followed by one newline. |
| ValidationHelper.ValidEmailLocal | utils/helpers.py:125 | The local part of an accepted address is non-empty and over the local class. |
| ValidationHelper.ValidEmailLocalSwap | utils/helpers.py:125 | Replacing the local part of an accepted address by any other non-empty local part keeps it accepted. |
| ValidationHelper.NoAtInvalid | utils/helpers.py:125 | A string without `@` never matches. |
| ValidationHelper.EmptyLocalInvalid | utils/helpers.py:125 | An address starting with `@` never matches. |
| ValidationHelper.NoDotInvalid | utils/helpers.py:125 | A domain without `.` never matches. |
| ValidationHelper.NewlineRejected | utils/helpers.py:125 | The scanner itself never matches a string ending in a newline; only the `$` rule admits it. |
| ValidationHelper.AcceptedEmailExample | utils/helpers.py:122-126 | "test@example.com" is accepted. |
| ValidationHelper.DoubleDotEmailExample | utils/helpers.py:125 | "test..test@domain.com" is accepted: the local class allows consecutive dots. |
| ValidationHelper.TrailingNewlineEmailExample | utils/helpers.py:125 | "a@b.co\n" is accepted. |
| ValidationHelper.RejectedEmailNoAt | utils/helpers.py:122-126 | "invalid-email" is rejected. |
| ValidationHelper.RejectedEmailNoLocal | utils/helpers.py:122-126 | "@domain.com" is rejected. |
| ValidationHelper.RejectedEmailNoDomain | utils/helpers.py:122-126 | "test@" and "test@domain" are rejected. |
| ValidationHelper.PhoneIgnoresNonDigits | utils/helpers.py:129-135 | Inserting digit-free text anywhere does not change whether a phone number is valid. |
| ValidationHelper.PhoneDigitsIff | utils/helpers.py:129-135 | An all-digit string is a valid phone exactly when it has 10 or 11 characters. |
| ValidationHelper.TenDigitPhoneExample | utils/helpers.py:129-135 | "1234567890" is valid. |
| ValidationHelper.ShortPhoneExample | utils/helpers.py:129-135 | "123" is not valid. |
| ValidationHelper.BracketedPhoneExample | utils/helpers.py:129-135 | "(12) 3456-7890" is valid: brackets, blanks and dashes are ignored. |
| ValidationHelper.DottedPhoneExample | utils/helpers.py:129-135 | "123.456.7890" is valid, although the form fixtures list it as an invalid phone. |
| ValidationHelper.UrlMatchesIff | utils/helpers.py:147-151 | The URL scanner accepts exactly: `http://` or `https://`; a non-empty host over `[-\w.]`; an optional port over `[:\d]`; then nothing, or `/`, a path, an optional `?query` and an optional `#fragment`. |
| ValidationHelper.AfterSchemeIff | utils/helpers.py:150 | The part after the scheme matches exactly when it splits into host, port and an optional path tail. |
| ValidationHelper.PathSound | utils/helpers.py:150 | What the path scanner accepts is a path, a query and a fragment, each over its class. |
| ValidationHelper.PathComplete | utils/helpers.py:150 | Every path, query and fragment over their classes is accepted by the path scanner. |
| ValidationHelper.AfterSchemeSound | utils/helpers.py:150 | What the scanner accepts after the scheme has the declared host, port and tail shape. |
| ValidationHelper.AfterSchemeComplete | utils/helpers.py:150 | Every host, port and tail of the declared shape is accepted after the scheme. |
| ValidationHelper.PathShapeMatches | utils/helpers.py:150 | The declarative path shape implies the scanner's acceptance. |
| ValidationHelper.QueryLengthOf | utils/helpers.py:150 | The query scan stops exactly where a well-formed query ends. |
| ValidationHelper.QueryLength | utils/helpers.py:150 | The scanned query prefix is a `?` followed by query characters, or empty. |
| ValidationHelper.AuthorityLength | utils/helpers.py:150 | The authority scan covers at least the host run and stays inside the string. |
| ValidationHelper.AuthorityLengthOf | utils/helpers.py:150 | For a host, a port and a tail starting with `/`, the authority scan ends exactly after the port. |
| ValidationHelper.PortDigits | utils/helpers.py:150 | A port over `[:\d]` starts with host characters up to its first `:`. |
| ValidationHelper.UrlMatchesScheme | utils/helpers.py:150 | After `http://` or `https://`, acceptance is decided by the rest alone. |
| ValidationHelper.UrlWithPathMatches | utils/helpers.py:147-151 | A scheme, a host and `/` followed by path characters form an accepted URL. |
| ValidationHelper.BareUrlMatches | utils/helpers.py:147-151 | A scheme followed by a host alone is an accepted URL. |
| ValidationHelper.PathHasNoHyphen | utils/helpers.py:150 | A path accepted by the class as written contains no `-`. |
| ValidationHelper.HyphenatedPathRejected | utils/helpers.py:147-151 | `is_valid_url` rejects any `scheme + host + "/" + rest` whose `rest` contains a `-`, even with a final newline. |
| ValidationHelper.HyphenatedPathNoMatch | utils/helpers.py:150 | The scanner as written does not match such a URL. |
| DataHelper.CleanString | utils/helpers.py:261-263 | The result is normalised: single spaces between words, no leading or trailing whitespace. It has the same words as the input, in order. |
| DataHelper.CleanStringKeepsWords | utils/helpers.py:261-263 | The cleaned string splits into the input's words, and their concatenation is the input's non-whitespace characters. |
| DataHelper.CleanStringIdempotent | utils/helpers.py:261-263 | Cleaning twice equals cleaning once. |
| DataHelper.CleanStringFixedIff | utils/helpers.py:261-263 | A string is its own cleaning exactly when it is normalised. |
| DataHelper.JoinNormalized | utils/helpers.py:263 | Non-empty whitespace-free words joined with single spaces form a normalised string. |
| DataHelper.ConsWordNormalized | utils/helpers.py:263 | A word, a space and a normalised string form a normalised string. |
| DataHelper.CleanStringExamples | utils/helpers.py:261-263 | The empty string and a whitespace-only string both clean to "". |
| DataHelper.ExtractNumbers | utils/helpers.py:266-269 | One number per maximal digit run; the result is empty exactly when the text has no digit. |
| DataHelper.ExtractNumbersOfJoin | utils/helpers.py:266-269 | Numbers written out with any digit-free separator are extracted back unchanged, in order. |
| DataHelper.ExtractSingleNumber | utils/helpers.py:266-269 | A numeral surrounded by digit-free text is extracted as that single number. |
| DataHelper.ExtractLeadingZeros | utils/helpers.py:269 | "007" gives [7]: `int` drops leading zeros. |
| DataHelper.Numerals | utils/helpers.py:269 | Each number's numeral is a non-empty string of digits. |
| DataHelper.Sort | utils/helpers.py:274 | `sorted` returns a sorted permutation of its input. |
| DataHelper.Insert | utils/helpers.py:274 | Inserting into a sorted list keeps it sorted and adds exactly the element. |
| DataHelper.SortedUnique | utils/helpers.py:274 | Two sorted lists with the same elements are equal, so `sorted` has one possible result. |
| DataHelper.CompareListsIff | utils/helpers.py:272-274 | `compare_lists` is true exactly when the lists are permutations of each other. |
| DataHelper.CompareListsReflexiveSymmetric | utils/helpers.py:272-274 | `compare_lists` is reflexive and symmetric. |
| AssertionHelper.MessageOr | utils/helpers.py:284 | `message or default` keeps a non-empty message and otherwise uses the default. |
| AssertionHelper.AssertContains | utils/helpers.py:281-286 | Raises exactly when `expected` is not a substring of `actual`. The message is non-empty, and is the caller's own when the caller gave a non-empty one. |
| AssertionHelper.AssertNotContains | utils/helpers.py:288-293 | Raises exactly when `expected` is a substring of `actual`, with the same message rule. |
| AssertionHelper.AssertGreaterThan | utils/helpers.py:295-300 | Passes exactly when `actual > expected`, with the same message rule. |
| AssertionHelper.AssertLessThan | utils/helpers.py:302-307 | Passes exactly when `actual < expected`, with the same message rule. |
| AssertionHelper.AssertBetween | utils/helpers.py:309-313 | Passes exactly when `min_val <= actual <= max_val`, with the same message rule. |
| AssertionHelper.ContainsDuality | utils/helpers.py:281-293 | For the same arguments, exactly one of the two substring checks raises. |
| AssertionHelper.GreaterLessDuality | utils/helpers.py:295-307 | `assert_greater_than(a, b)` passes exactly when `assert_less_than(b, a)` does. |
| AssertionHelper.BetweenByComparisons | utils/helpers.py:295-313 | `assert_between` passes exactly when the value is neither below the minimum nor above the maximum; an empty interval always raises. |
| AssertionHelper.EmptyAlwaysContained | utils/helpers.py:281-286 | `assert_contains` with an empty `expected` never raises. |
| Performance.PerformanceHelper.constructor | utils/helpers.py:157-160 | Both maps start empty. |
| Performance.PerformanceHelper.StartTimer | utils/helpers.py:162-165 | Records the start time of the operation and leaves the metrics alone. |
| Performance.PerformanceHelper.EndTimer | utils/helpers.py:167-176 | For a never-started operation: returns 0 and changes nothing. Otherwise: returns now minus the start, records it as the operation's metric, keeps the start entry and changes no other key. Metrics only ever exist for started operations. |
| Performance.PerformanceHelper.GetMetrics | utils/helpers.py:178-180 | Returns the current metrics and changes nothing. |
| Performance.PerformanceHelper.ResetMetrics | utils/helpers.py:182-185 | Empties both maps. |
| Performance.TimedSession | utils/helpers.py:162-180 | Start, end and an end of an unknown operation leave exactly the one measured duration. |
| DataGenerator.RandInt | utils/data_generator.py:32-33 | A `randint` draw lies in its closed range. |
| DataGenerator.RandIntOnto | utils/data_generator.py:32-33 | Every value of the range can be drawn. |
| DataGenerator.Choice | utils/data_generator.py:45 | A `choice` draw is one of the options. |
| DataGenerator.ChoiceOnto | utils/data_generator.py:45 | Every option can be drawn. |
| DataGenerator.GenerateMobileNumber | utils/data_generator.py:55-58 | Exactly 10 characters, each a digit. |
| DataGenerator.MobileNumberIsValidPhone | utils/data_generator.py:55-58 | A generated mobile number always passes `is_valid_phone`. |
| DataGenerator.MobileNumberOnto | utils/data_generator.py:55-58 | Every 10-digit string, leading zeros included, can be generated. |
| DataGenerator.PoolSample | utils/data_generator.py:75 | `random.sample` returns k elements, taken from the pool without reuse (a sub-multiset). |
| DataGenerator.PoolRemove | utils/data_generator.py:75 | Moving the last element into the chosen slot removes exactly the chosen element. |
| DataGenerator.SampleDistinctMembers | utils/data_generator.py:75 | A sample of a duplicate-free pool has no duplicates and only pool members. |
| DataGenerator.CountsOneNoDuplicates | utils/data_generator.py:75 | A sequence in which each value occurs at most once has no duplicates. |
| DataGenerator.NoDuplicatesCountsOne | utils/data_generator.py:75 | A duplicate-free sequence holds each value at most once. |
| DataGenerator.EffectiveCount | utils/data_generator.py:74 | `count or randint(1, 3)`: a non-zero count is kept, and 0 or `None` becomes a value in 1..3. |
| DataGenerator.PickFromCatalog | utils/data_generator.py:74-75 | Fails exactly for a negative count. Otherwise returns `min(count, catalog size)` distinct catalog items. |
| DataGenerator.SubjectsDistinct | utils/data_generator.py:69-73 | The subject catalog has 14 distinct names. |
| DataGenerator.HobbiesDistinct | utils/data_generator.py:79 | The hobby catalog has 3 distinct names. |
| DataGenerator.GenerateSubjects | utils/data_generator.py:67-75 | Raises exactly for a negative count. Returns `min(count, 14)` subjects for a positive count and 1 to 3 for none or 0. All are distinct catalog subjects. |
| DataGenerator.GenerateHobbies | utils/data_generator.py:77-81 | The same rule, with the 3 hobbies. |
| DataGenerator.GenerateUserData | utils/data_generator.py:19-37 | Age in 18..65, salary in 3000..15000, and a mobile of exactly 10 digits, which therefore passes `is_valid_phone`. |
| DataGenerator.GenerateFormData | utils/data_generator.py:39-53 | Gender is Male, Female or Other. The mobile is exactly 10 digits and passes `is_valid_phone`. There are 1 to 3 distinct catalog subjects and 1 to 3 distinct hobbies. |
| DataGenerator.GenerateApiData | utils/data_generator.py:100-108 | userId in 1..100 and id in 1..1000. |
| DataGenerator.GenerateFileData | utils/data_generator.py:110-117 | The file name holds a single number in 1000..9999. The size is in 1024..10240 and the type is one of the five listed. |
| DataGenerator.FileNameNumber | utils/data_generator.py:113 | `extract_numbers` reads back exactly the number put into the file name. |
| DataGenerator.TableRecordAt | utils/data_generator.py:87-97 | Each web-table row has age in 18..65, salary in 3000..15000 and one of the 8 departments. |
| DataGenerator.GenerateWebTableData | utils/data_generator.py:83-98 | The loop returns `max(count, 0)` rows, row i built from the i-th draws. |
| DataGenerator.WebTableRowsInRange | utils/data_generator.py:83-98 | Every row of such a table is within the ranges and departments. |
| DataGenerator.PerfRecordAt | utils/data_generator.py:123-129 | Row i has id i+1, a value in 1..1000 and a category in A..E. |
| DataGenerator.PerfNameCarriesId | utils/data_generator.py:125 | The only number in the name "Performance Test Item <id>" is the id. |
| DataGenerator.GeneratePerformanceData | utils/data_generator.py:119-130 | The loop returns `max(count, 0)` rows, row i built from the i-th draws. |
| DataGenerator.PerformanceIds | utils/data_generator.py:119-130 | The ids run 1, 2, … in order, and each name carries its id. |
| DataGenerator.CharRange | utils/data_generator.py:134-136 | A run of n consecutive characters contains exactly the characters of that range. |
| DataGenerator.RandomStringAlphabet | utils/data_generator.py:134-136 | The alphabet is the ASCII letters, plus the digits exactly when digits are included. |
| DataGenerator.Choices | utils/data_generator.py:137 | n independent choices give n characters of the alphabet. |
| DataGenerator.ChoicesOnto | utils/data_generator.py:137 | Every string over the alphabet can be drawn. |
| DataGenerator.GenerateRandomString | utils/data_generator.py:132-137 | Length `max(length, 0)`; every character is an ASCII letter, or a digit when digits are included. |
| DataGenerator.RandomStringOnto | utils/data_generator.py:132-137 | Every such string can be generated. |
| DataGenerator.GenerateEmailVariations | utils/data_generator.py:139-148 | Raises exactly when the input does not contain exactly one `@`; otherwise returns 4 strings. |
| DataGenerator.EmailVariationsOf | utils/data_generator.py:141-147 | For `name@domain` the four strings are `name+test`, `name.test`, `test.name` and `name_NNN` with NNN in 100..999, each followed by `@domain`. |
| DataGenerator.ValidEmailSplitsInTwo | utils/data_generator.py:141 | A valid address splits at `@` into exactly two parts that rebuild it. |
| DataGenerator.VariantLocalsOk | utils/data_generator.py:143-146 | The four local parts stay non-empty, `@`-free and within the email local class. |
| DataGenerator.VariantsValid | utils/data_generator.py:143-146 | Each of the four variants of a valid address is valid. |
| DataGenerator.VariationsOfValidAddress | utils/data_generator.py:139-148 | Every variation of a valid `name@domain` passes `is_valid_email`. |
| DataGenerator.EmailVariationsValid | utils/data_generator.py:139-148 | For any address that passes `is_valid_email`, generation succeeds and all four variations pass. |
| DataGenerator.ThreeDigitNumeral | utils/data_generator.py:146 | A number in 100..999 is written with 3 digits. |
| DataGenerator.EmailVariationsDistinct | utils/data_generator.py:143-146 | Variants 1, 2 and 4 are pairwise distinct, and variant 3 differs from variants 1 and 4. |
| DataGenerator.PlusVariantDiffers | utils/data_generator.py:143-145 | Variant 1 has one more `+` than variant 3, so they always differ. |
| DataGenerator.DotVariantsDiffer | utils/data_generator.py:144-145 | Variants 2 and 3 differ whenever the local part does not start with 't'. |
| DataGenerator.VariationsDistinctOnDomain | utils/data_generator.py:139-148 | For a local part not starting with 't', the four variations are pairwise distinct and each contains `@` followed by the original domain. |
| DataGenerator.UserExampleVariations | utils/data_generator.py:139-148 | "user@example.com" gives four different addresses, each containing "@example.com". |
| DataGenerator.OnDomain | utils/data_generator.py:143-146 | A variation built as local part, `@` and domain contains `@` followed by the domain. |
| DataGenerator.EmailVariationsCollide | utils/data_generator.py:144-145 | For the local part "test", variants 2 and 3 are the same address. |
| DataGenerator.Clamp | utils/data_generator.py:153-156 | A slice bound is clamped into the string. |
| DataGenerator.PhoneSlices | utils/data_generator.py:153-156 | `[:2]`, `[2:6]` and `[6:]` rebuild the base for any string. |
| DataGenerator.GeneratePhoneVariations | utils/data_generator.py:150-158 | Total on every string, and always returns 4 variations. |
| DataGenerator.FilterSkip | utils/helpers.py:133 | Text with no digit appended to a string adds nothing to the digits the string keeps. |
| DataGenerator.SeparatedDigits | utils/data_generator.py:153-156 | Digit-free separators between the slices leave the digits of the slices in order. |
| DataGenerator.SeparatorsDigitFree | utils/data_generator.py:153-156 | The separators are digit-free, except that "+55 " contributes "55". |
| DataGenerator.PhoneVariationDigits | utils/data_generator.py:150-158 | Variants 1, 3 and 4 keep exactly the base's digits; variant 2 has "55" in front of them. |
| DataGenerator.PhoneVariationsValidity | utils/data_generator.py:150-158 | Variants 1, 3 and 4 are valid exactly when the base is. Variant 2 is valid exactly when the base has 8 or 9 digits, so it is invalid for every valid base. |
| DataGenerator.Repeat | utils/data_generator.py:170 | `c * n` is n copies of c. |
| DataGenerator.GenerateInvalidData | utils/data_generator.py:160-171 | Exactly its 8 keys; the long string has 1000 characters. |
| DataGenerator.InvalidEmailFixtureFails | utils/data_generator.py:163 | The invalid email fixture fails `is_valid_email`. |
| DataGenerator.InvalidPhoneFixtureFails | utils/data_generator.py:164 | The invalid phone fixture fails `is_valid_phone`. |
| DataGenerator.GenerateEdgeCaseData | utils/data_generator.py:173-184 | Exactly its 8 keys; the minimum string has length 1 and the maximum 255. |
| DataGenerator.WhitespaceFixtureCleansToEmpty | utils/data_generator.py:181 | The whitespace-only fixture cleans to "". |
| Config.GetEnv | config/settings.py:18-41 | `os.getenv` gives the set value, or else the default. |
| Config.ParseFlagIff | config/settings.py:21 | A flag is true exactly when its text is "true" in any mix of upper and lower case. |
| Config.FromEnvironment | config/settings.py:21-25 | HEADLESS and SCREENSHOT_ON_FAILURE are the flag readings of their variables, with defaults "false" and "true". |
| Config.DefaultSettings | config/settings.py:18-25 | With nothing set, the base URL is "https://demoqa.com", the browser "chrome", headless off and screenshots on failure on. |
| Config.PageName | config/settings.py:44-66 | Each page path is non-empty and has no `/`. |
| Config.PageUrl | config/settings.py:44-66 | Each page URL is the base URL, `/` and the page's path. |
| Config.PageNamesDistinct | config/settings.py:44-66 | The six page paths are different. |
| Config.PageOfPageUrl | config/settings.py:44-66 | Different pages have different URLs: the page is recovered from its URL. |
| Config.DefaultBaseIsBare | config/settings.py:18 | The default base URL is a scheme and a host. |
| Config.PageNameClass | config/settings.py:49-54 | Exactly the form and progress-bar paths contain `-`; all six are over the path class with `-`. |
| Config.PageUrlValidWithHyphen | config/settings.py:44-66 | On a scheme-and-host base, the path class with `-` accepts every page URL. |
| Config.PlainPageUrlValid | config/settings.py:44-46 | On a scheme-and-host base, `is_valid_url` accepts the page URLs without a `-`. |
| Config.HyphenatedPageUrlInvalid | config/settings.py:48-54 | On a scheme-and-host base, `is_valid_url` rejects FORM_URL and PROGRESS_BAR_URL. |
| Config.PageUrlValidity | config/settings.py:44-66 | On a scheme-and-host base, `is_valid_url` rejects exactly FORM_URL and PROGRESS_BAR_URL, and the class with `-` accepts all six. |
| Config.GetBrowserOptions | config/settings.py:68-102 | The method building and mutating the table returns `{"args": base + ["--headless" if headless]}` for "chrome", "firefox" and "edge", and `{}` for any other name. |
| Config.GetBrowserOptionsTwice | config/settings.py:70-102 | Two calls give equal results, with "--headless" at most once. This follows from the result being a function of the settings, not from any state kept between calls. |
| Config.OptionsOnlyForKnownNames | config/settings.py:102 | The options are empty exactly when the name is not one of the three exact lower-case names; otherwise the only key is "args". |
| Config.BaseArgumentCounts | config/settings.py:70-92 | Chrome has 4 base arguments, Firefox 2 and Edge 3, plus one when headless. |
| Config.HeadlessOnceAndLast | config/settings.py:94-100 | "--headless" occurs once when headless and not at all otherwise; when present it is the last argument. |
| Config.BaseArgsNotHeadless | config/settings.py:70-91 | No base argument list contains "--headless". |
| Conftest.MarkerName | tests/conftest.py:391-400 | Each marker is looked for by a non-empty name. |
| Conftest.Rank | tests/conftest.py:391-400 | The position of each marker in the elif chain. |
| Conftest.FirstFound | tests/conftest.py:391-400 | The position in a list of markers of the first one whose name occurs in the path: that name occurs and no earlier one does; the list's length when none occurs. |
| Conftest.Classify | tests/conftest.py:391-400 | No marker exactly when none of the five names occurs in the path. Otherwise the marker's name occurs, and no name earlier in the chain does. |
| Conftest.AddedAtMostOne | tests/conftest.py:391-400 | At most one marker is added, and none exactly when no name occurs. |
| Conftest.Item.constructor | tests/conftest.py:390 | An item holds its path and its markers. |
| Conftest.ModifyItems | tests/conftest.py:387-400 | Every item gets the marker its path selects appended to its markers, and nothing else changes. |
| Conftest.ApiWins | tests/conftest.py:391-392 | A path containing "api" anywhere gets `api` and nothing else. |
| Conftest.ChainOrderDecides | tests/conftest.py:391-400 | The chain order decides, not position in the path: "ui" wins over an earlier "performance". |
| Conftest.DriverArgs | tests/conftest.py:150-151 | The driver's arguments are the options' "args" when the configured name is spelled exactly, and none otherwise. |
| Conftest.StartBrowser | tests/conftest.py:89-96 | Succeeds exactly when the lower-cased name is chrome, firefox or edge, and picks that driver. Its arguments are the options looked up under the name as spelled, then the setup's own. Otherwise raises "Unsupported browser: " followed by the name. |
| Conftest.SetupArgs | tests/conftest.py:150-157 | A setup passes the configured arguments first; Chrome's then adds "--disable-blink-features=AutomationControlled", and Firefox and Edge add nothing. |
| Conftest.SetupArgsHeadless | tests/conftest.py:150-155 | The setup's own argument is not "--headless", so headless mode depends on the configured arguments alone. |
| Conftest.LowerOfSupported | tests/conftest.py:89-94 | "chrome", "firefox" and "edge" are unchanged by lower-casing. |
| Conftest.HeadlessArgIff | config/settings.py:94-102 | "--headless" is among a supported browser's arguments exactly when headless. |
| Conftest.LowerCaseNameGetsOptions | tests/conftest.py:120-127 | A lower-case name starts its browser with its arguments, "--headless" among them exactly when headless. |
| Conftest.MixedCaseLosesOptions | tests/conftest.py:89-96 | A name accepted only after lower-casing starts its browser with none of the configured arguments, only the setup's own, and never with "--headless". |
| Conftest.CapitalisedChromeExample | tests/conftest.py:89-90 | "Chrome" with headless on starts Chrome with only "--disable-blink-features=AutomationControlled". |
| Conftest.NormalizedDriverArgs | tests/conftest.py:150-151 | The arguments looked up under the lower-cased name. |
| Conftest.StartBrowserNormalized | tests/conftest.py:89-96 | The same dispatch and error as the fixtures, with the options looked up under the lower-cased name. |
| Conftest.NormalizedKeepsHeadless | tests/conftest.py:89-96 | With the lookup normalised, every accepted name gets non-empty arguments, with "--headless" exactly when headless. |

## Left out

- `WebDriverHelper`, `FileHelper`, `APIHelper`, logging, screenshots, Allure attachments, driver installation and the BDD steps are browser, file-system or HTTP plumbing.
- `is_valid_date`, `generate_date_of_birth`, `format_currency`, `generate_hash` and `generate_timestamp` depend on `datetime`, float formatting, MD5 or the wall clock. The date of birth is an input of `GenerateFormData`, and the timestamp of a performance row comes from a `clock` parameter.
- The fixture builders that return constants and `generate_form_validation_data` (utils/data_generator.py:186-265) only hold data. Their "invalid" lists are not claimed to fail the validators: "test..test@domain.com" and "123.456.7890" pass them, as the examples above show.
- Character classes are ASCII. Python's `\d`, `\w` and `str.lower()` are Unicode-aware. `str.split()` whitespace is the exact set of characters Python's `isspace` accepts, listed in `Text.IsSpace`.
- Lower-casing is ASCII-only. For comparing against "true", "chrome", "firefox" and "edge" the result is the same as Python's.
- Faker output and `random` draws are explicit inputs. `RandInt` reduces a raw draw modulo the range size: it captures which values are possible, not CPython's distribution.
- `.env` loading and the `int(...)` parsing of TIMEOUT, PARALLEL_WORKERS, RETRY_COUNT and API_TIMEOUT are not modelled; those fields are taken as already parsed.
- `PerformanceHelper`: the clock is integer ticks passed in rather than `time.time()` floats.
- AssertionHelper.AssertGreaterThan: floats are reals, so NaN (for which every comparison is false) is not modelled. The same holds for AssertionHelper.AssertLessThan and AssertionHelper.AssertBetween. `str()` of a float is a function parameter.
- DataHelper.CompareLists: modelled on lists of integers; other element types and the `TypeError` for unorderable mixes are left out.
- DataGenerator.GenerateEmailVariations: the error is a `Result` message standing in for Python's `ValueError` from tuple unpacking.
- Conftest.ModifyItems: requires the items to be distinct objects. pytest collects each test once; a list holding the same item twice would get the marker twice.
- Conftest.StartBrowser: driver creation, `maximize_window`, the implicit wait and `quit` are left out. So are Chrome's two experimental options (`excludeSwitches` and `useAutomationExtension`, tests/conftest.py:156-157) and the script it runs after start-up. Only the choice of driver and its command-line arguments are modelled.

## Findings

| source | as written | input that shows it | evidently intended | confidence | as-written member | corrected member |
|---|---|---|---|---|---|---|
| utils/helpers.py:150 | The path class `[\w/_.]` has no `-`, so `is_valid_url` rejects every URL whose path contains a hyphen. | The suite's own FORM_URL, "https://demoqa.com/automation-practice-form", and PROGRESS_BAR_URL, "https://demoqa.com/progress-bar" | Hyphenated paths, including the suite's own page URLs, are valid URLs. | medium, not executed | Config.PageUrlValidity | ValidationHelper.UrlWithPathMatches |
| tests/conftest.py:89-90 | The fixtures lower-case BROWSER to choose the driver, but the driver setup looks up its options under the name as spelled. | BROWSER="Chrome", HEADLESS="true": Chrome starts with none of the configured arguments, only "--disable-blink-features=AutomationControlled", so the window is not headless. | Any spelling the dispatch accepts gets that browser's arguments, including "--headless". | medium, not executed | Conftest.MixedCaseLosesOptions | Conftest.NormalizedKeepsHeadless |

