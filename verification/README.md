# job-adoption / dog-adoption core in Dafny

This project models the pure core of a small notifier. The notifier:

- scrapes the adoptable dogs of two animal shelters and the job postings of one company;
- filters both lists against fixed criteria;
- notifies about listings not seen before;
- records the notified dogs in a JSON file.

The model covers these parts of the notifier:

- **Text and regular expressions.** `Text` covers strip, lower, replace, split, join and `\s`/`\b`/`\d`. `Pattern` is a small regex language with a backtracking semantics (`Ends`) and a greedy matcher (`Greedy`). For the well-formed patterns used here, `Search` is proved equal to `re.search`.
- **Quantity parsing** (`Quantity`, `Shapes`). `_parse_weight` and `_parse_age` return `Exact(real)` for a computed value or `Verbatim(text)` for echoed text. The model also covers `str(float)` (`Show`) and `float()` (`DecimalValue`) on the decimals those produce.
- **Listings** (`Listings`). `AdoptableDog` and `Job` are modelled as datatypes. Their equality and hash are projections onto a key, and their `description` texts are modelled too. `Job.__init__` replaces falsy qualifications with `[]`.
- **Extractors** (`Shelters`, `SexField`). Both shelter extractors are modelled from the point where the page has been taken apart:
  - Helen Woodward: products with labelled details, the breed-present rule and the sex suffix rule.
  - Rancho Coastal: the four lines after the dog's name.
- **Scrapers and filters** (`Scraper`). Covered:
  - a failed fetch gives no dogs;
  - a failed probe gives no jobs;
  - the eligibility filter on sex, weight, age and breed, including the `float()` that raises;
  - the job blocklist filter;
  - `_normalize_text`.
- **Company** (`Company`). Covered:
  - `requires_excessive_experience`;
  - the text half of `_extract_qualifications`: header search, section end, line split and bullet cleaning;
  - the per-posting filter and the page loop of `Viasat.scrape_jobs`.
- **Store** (`Store`). `NotifiedDatabase` works over an abstract file state `Missing | Corrupt | Records`. Dogs are encoded as eight-field records.
- **Run** (`Pipeline`). `NotificationGenerator.run` is a pure function of the file state. It takes three parameters: the shelters' fetched pages with their extractors, the filter, and the messenger.

A Python set is modelled as a sequence with no two equal elements, kept in insertion order. Integers are unbounded and arithmetic is exact `real`. Strings are `seq<char>`.

Two facts about the notifier shape the model:

- **Unparsable weight or age.** The filter raises, and the whole run stops, only for a dog of the wanted sex whose weight `float()` cannot read, or whose weight is within the limit and whose age `float()` cannot read. A dog of another sex is dropped before any `float()` (`Scraper.CheckDog`, `Scraper.RaisesIff`, `Scraper.FilterRaises`).
- **Store records.** A store record holds all eight fields of a dog, the image included (`Store.Encode`).

## Model

| member | source | states |
|---|---|---|
| Quantity.GlyphValue | src/animal_shelter.py:29-39 | every glyph of the table stands for a proper fraction, strictly between 0 and 1 |
| Quantity.ParseWeight | src/animal_shelter.py:20-53 | empty text gives `""`, and a computed weight is never negative |
| Quantity.RemoveUnitsSpec | src/animal_shelter.py:26 | `re.sub(r'\blbs?\b','')` drops exactly the characters inside a word-bounded "lb" or "lbs", and keeps every other character in order |
| Quantity.UnitLengthIff | src/animal_shelter.py:26 | the left-to-right scan finds a unit at a position exactly when a word-bounded "lb"/"lbs" stands there |
| Quantity.RemoveUnitsNoL | src/animal_shelter.py:26 | a text without the letter l loses nothing |
| Quantity.RemoveTrailingUnit | src/animal_shelter.py:26 | a trailing standalone "lbs" is removed and nothing else is |
| Quantity.WeightOfGlyph | src/animal_shelter.py:41-46 | when a number followed by a glyph occurs, the weight is the leftmost such number plus the glyph's value |
| Quantity.WeightOfVerbatim | src/animal_shelter.py:48-53 | otherwise the leftmost `\d+\.?\d*` comes back as written, and with no digit the cleaned text comes back |
| Quantity.LeftmostNumeralUnique | src/animal_shelter.py:49-51 | the leftmost greedy numeral is unique |
| Quantity.ParseAge | src/animal_shelter.py:56-141 | empty text gives `""`, a computed age is never negative, and text that comes back is the input lower-cased and stripped |
| Quantity.AgePatternsWellFormed | src/animal_shelter.py:77-134 | every pattern of the cascade is in the class where greedy matching equals `re.search` |
| Quantity.AgeFirstMatchWins | src/animal_shelter.py:76-131 | the first pattern of the cascade found anywhere decides, with the value of its branch computed from the groups of its leftmost match |
| Quantity.AgeEchoIff | src/animal_shelter.py:133-141 | the text comes back unchanged exactly when none of the seven distinct patterns occurs; the eighth repeats the sixth and is never reached |
| Quantity.AgeMatchMentions | src/animal_shelter.py:76-138 | a pattern is found only in a text holding the initial of every unit word it spells out |
| Quantity.AgeFirstMentioned | src/animal_shelter.py:76-138 | a text matched whole by a pattern, and lacking a unit initial of each earlier pattern, gets that pattern's value |
| Shapes.ParseAgeYearsMonthsWeeks | src/animal_shelter.py:77-83 | "N years M months K weeks" is N + M/12 + K/52 |
| Shapes.ParseAgeYearsMonths | src/animal_shelter.py:86-91 | "N years M months" is N + M/12 |
| Shapes.ParseAgeMonthsWeeks | src/animal_shelter.py:94-99 | "M months K weeks" is M/12 + K/52 |
| Shapes.ParseAgeYearsWeeks | src/animal_shelter.py:102-107 | "N years K weeks" is N + K/52 |
| Shapes.ParseAgeYearsGlyph | src/animal_shelter.py:110-116 | "N c years" is N plus the value of glyph c |
| Shapes.ParseAgeYears | src/animal_shelter.py:110-117 | "N years" is N |
| Shapes.ParseAgeMonths | src/animal_shelter.py:120-124 | "M months" is M/12 |
| Shapes.ParseAgeWeeks | src/animal_shelter.py:127-131 | "K weeks" is K/52 |
| Shapes.WeightWithGlyph | src/animal_shelter.py:26-46 | "N c lbs" weighs N plus the glyph's value |
| Shapes.WeightWhole | src/animal_shelter.py:26-53 | "N lbs" gives back the numeral "N" |
| Pattern.SearchIsLeftmostMatch | src/animal_shelter.py:42 | for a well-formed pattern, `Search` reports a match at the leftmost position where any exists, and nothing when none does |
| Pattern.SearchFindsLeftmost | src/animal_shelter.py:77 | what `Search` reports is the leftmost match, and any leftmost match has the reported groups |
| Pattern.GreedyComplete | src/animal_shelter.py:110 | on a well-formed pattern the greedy run finds every match, with the same groups |
| Pattern.NoMatchWithoutLetter | src/animal_shelter.py:120 | a pattern whose literal's first letter is absent from the text finds nothing |
| Quantity.FloatTextRoundTrip | src/animal_shelter.py:46 | the decimal text written for a value with at most sixteen fraction digits reads back under `float()` as that value |
| Quantity.ShowReadsBack | scraper.py:34-37 | what a listing stores for a computed weight or age reads back under `float()` as that value |
| Listings.DogEqualsIff | adoptable_dog.py:15-24 | two dogs are equal exactly when shelter, name, breed, sex, age, weight and url agree; the image never matters, and a non-dog is never equal |
| Listings.DogEqualsEquivalence | adoptable_dog.py:18-24 | dog equality is reflexive, symmetric and transitive |
| Listings.DogHashConsistent | adoptable_dog.py:26-27 | equal dogs hash equal, whatever the tuple hash is |
| Listings.DogDescription | adoptable_dog.py:12-13 | the description starts with the name |
| Listings.DescriptionSplits | adoptable_dog.py:12-13 | splitting the description at commas gives back name, sex, age, breed and weight, in that order |
| Listings.NewJob | src/job.py:2-7 | the fields are kept, and missing or empty qualifications are stored as `[]` |
| Listings.JobEqualsIff | src/job.py:23-27 | jobs are equal exactly when company and requisition id agree; title, url and qualifications never matter |
| Listings.JobEqualsEquivalence | src/job.py:26-27 | job equality is an equivalence relation |
| Listings.JobHashConsistent | src/job.py:29-30 | equal jobs hash equal |
| Listings.JobDescription | src/job.py:10-21 | the description starts with the three header lines, and is exactly them when there are no qualifications |
| Listings.JobDescriptionLines | src/job.py:11-21 | the description's lines are the header lines, then a heading and one "  - q" line per qualification, in order |
| Shelters.GatherSex | src/animal_shelter.py:186-197 | the sex comes from the last detail whose heading names "sex", through the suffix rule, and is "" when there is none |
| Shelters.GatherAge | src/animal_shelter.py:186-199 | the age is the raw text of the last detail naming "age", or "" |
| Shelters.GatherWeight | src/animal_shelter.py:186-201 | the weight is the parsed text of the last detail naming "weight", or "" |
| Shelters.ProductDog | src/animal_shelter.py:159-205 | a listed product's dog has its stripped title and breed, its image, and the traits of its details |
| Shelters.HelenWoodwardWith | src/animal_shelter.py:154-208 | one dog per product with a title and a non-blank breed, in product order |
| Shelters.ContentLinesOfJoin | src/animal_shelter.py:246-247 | stripped non-blank lines joined by line breaks come back as the content lines |
| Shelters.Window | src/animal_shelter.py:255-266 | the four lines after the first line mentioning the name, ignoring case, are breed, sex, age and parsed weight; missing lines give "" |
| Shelters.WindowAfterName | src/animal_shelter.py:255-266 | with four lines after the first mention, those lines are the fields |
| Shelters.NamedDog | src/animal_shelter.py:232-268 | the dog of a named article has its name, image and the fields of its own text |
| Shelters.RanchoCoastal | src/animal_shelter.py:217-271 | the extractor as evidently intended, with the fields of an article without a text reset: one dog per article with a linked title, in article order |
| Shelters.RanchoAgreesWithText | src/animal_shelter.py:243-268 | when every named article has a text, the code as written and the corrected extractor give the same dogs |
| Shelters.RanchoUnboundField | src/animal_shelter.py:243-268 | as written, a first named article without text raises |
| Shelters.RanchoStaleField | src/animal_shelter.py:243-268 | as written, an article without text takes the four fields of the article before it |
| Shelters.RanchoNoStaleField | src/animal_shelter.py:243-268 | corrected, an article without text gets empty fields |
| SexField.SexReplaceIsNoOp | src/animal_shelter.py:195-197 | as written, the two replaces never change the lower-cased sex |
| SexField.SpayedSuffixKept | src/animal_shelter.py:195-197 | as written, "X - Spayed" is stored as "x - spayed" |
| SexField.SexCorrectedPlain | src/animal_shelter.py:195-197 | corrected, a plain sex is just lower-cased |
| SexField.SexCorrectedSpayed | src/animal_shelter.py:195-197 | corrected, the spay suffix is removed |
| SexField.SexCorrectedNeutered | src/animal_shelter.py:195-197 | corrected, the neuter suffix is removed |
| Scraper.ScrapeDogs | scraper.py:17-26 | a failed fetch gives no dogs, and a page gives what the extractor reads from it |
| Scraper.ScrapeJobs | src/scraper.py:15-21 | a failed probe gives no jobs, and otherwise the company's own result |
| Scraper.FailedProbeHidesErrors | src/scraper.py:16-19 | after a failed probe, the company scraper's outcome, even an error, makes no difference |
| Scraper.AnyOccursIff | scraper.py:40-43 | the breed test holds exactly when some allowed breed occurs in the text |
| Scraper.CheckDog | scraper.py:31-45 | a dog passes, or makes the check raise, only when its lower-cased sex is the wanted one: the sex is tested before any `float()` |
| Scraper.EligibleIff | scraper.py:32-45 | eligible means: lower-cased sex equals the wanted sex, weight at most the maximum, age at most the maximum, and some allowed breed in the lower-cased breed |
| Scraper.RaisesIff | scraper.py:34-37 | the check raises exactly when the sex matches and then the weight, or (with the weight in range) the parsed age, is not a number |
| Scraper.FilterAdoptable | scraper.py:29-47 | the filter raises exactly when some dog's check raises; otherwise it keeps exactly the eligible dogs, in order |
| Scraper.FilterAdoptableSpec | scraper.py:29-47 | the result is a subsequence of the input, and a dog is in it exactly when it is in the input and eligible |
| Scraper.FilterRaises | scraper.py:34-37 | a dog whose check raises makes the whole filter raise |
| Scraper.NoBreedsNoDogs | scraper.py:40-45 | with no allowed breed, no dog is admitted |
| Scraper.FilterAdoptableTwice | scraper.py:29-47 | filtering the filtered list changes nothing |
| Scraper.StoredWeightCompared | scraper.py:34-35 | a stored computed weight is compared by its value, and a dog over the maximum is dropped |
| Scraper.ApplicableIff | src/scraper.py:26-33 | a job is admitted exactly when no blocklist keyword occurs in its lower-cased title |
| Scraper.FilterJobs | src/scraper.py:24-34 | a job is kept exactly when it is in the input and admitted |
| Scraper.FilterJobsSubseq | src/scraper.py:24-34 | the kept jobs are a subsequence of the input |
| Scraper.EmptyBlocklist | src/scraper.py:28-33 | an empty blocklist keeps every job |
| Scraper.FilterJobsTwice | src/scraper.py:24-34 | filtering twice is filtering once |
| Scraper.MoreBlockedWords | src/scraper.py:24-34 | more keywords keep a subsequence of what fewer keep |
| Scraper.Collapse | scraper.py:66 | `re.sub(r"\s+", " ", t)` leaves single spaces only, and starts with a blank exactly when the text does |
| Scraper.CollapseRun | scraper.py:66 | a blank run between two words becomes exactly one space: the words on either side are collapsed on their own and never merged |
| Scraper.CollapseLast | scraper.py:66 | the collapsed text ends with a blank exactly when the text does |
| Scraper.CollapseKeepsWords | scraper.py:66 | collapsing keeps every non-blank character, in order |
| Scraper.NormalizeText | scraper.py:63-66 | falsy text gives ""; the result has no blank at either end, only single spaces, no capital, and the non-blank characters of the input lower-cased, in order |
| Scraper.NormalizeRun | scraper.py:63-66 | two texts without blanks at their ends, joined by any blank run, normalise to their normal forms joined by exactly one space |
| Scraper.NormalizeTwice | src/scraper.py:50-53 | normalizing is idempotent |
| Company.ExperienceAtIff | src/company.py:31-32 | the greedy scan at a position succeeds exactly when a word-bounded 4-9 or 10, an optional "+", blanks and a word-bounded "years" or "yrs" start there |
| Company.ExperienceFromIff | src/company.py:31-32 | the search succeeds exactly when the pattern occurs at some position |
| Company.RequiresExcessiveExperience | src/company.py:21-32 | false for missing or empty qualifications; otherwise true exactly when the space-joined, lower-cased text holds the pattern |
| Company.NoMatchInsideNumber | src/company.py:31 | no match starts inside a longer number |
| Company.TenPlusYears | src/company.py:29-32 | "10+ yrs" requires excessive experience |
| Company.AcrossQualifications | src/company.py:29 | "5" ending one qualification and "years" starting the next match together |
| Company.FourteenYears | src/company.py:31-32 | "14 years" does not match |
| Company.FindHeader | src/company.py:127-134 | the header search reports the leftmost header, ignoring case |
| Company.FirstStop | src/company.py:139-141 | the section ends at the first title-like line |
| Company.SplitLines | src/company.py:144 | there is at least one piece and no piece holds a line break |
| Company.SplitLinesJoin | src/company.py:144 | lines without breaks joined by "\n" split back into exactly those lines |
| Company.TrimBullet | src/company.py:145 | a cleaned line has no bullet mark, dash, space or tab at either end |
| Company.Bullets | src/company.py:143-149 | every bullet is longer than three characters, on one line, and has no bullet mark, dash or blank at either end |
| Company.BulletsOfLines | src/company.py:139-149 | for any lines joined by "\n", the bullets are exactly the lines with marks, dashes and blanks stripped from both ends, kept when longer than three characters, in line order |
| Company.TrimMarks | src/company.py:145 | marks, dashes and blanks before a word are stripped, and the word is left whole |
| Company.BulletsMarked | src/company.py:139-149 | a section "• w\n- s\n", with w longer and s not longer than three characters, gives the one bullet w: the mark is stripped, the short line and the empty piece after the final break are dropped |
| Company.QualificationsIn | src/company.py:127-149 | with no header there are no bullets |
| Company.ExtractQualifications | src/company.py:107-149 | an empty description gives no bullets, and every bullet returned is clean and longer than three characters |
| Company.QualificationsRoundTrip | src/company.py:127-149 | a header line followed by clean bullet lines gives back exactly those bullets |
| Company.SectionEndsAtTitle | src/company.py:139-141 | a title-like line after the bullets ends the section |
| Company.ExtractRoundTrip | src/company.py:107-149 | the same round trip through the whole extraction: a plain-text description without `<` or carriage returns gives back its bullet lines, whatever the HTML |
| Company.PagesRead | src/company.py:62-75 | every page read is an answered, non-empty page at its own position |
| Company.ReadsAll | src/company.py:62-75 | answered non-empty pages are all read, each unchanged and in order |
| Company.ReadUntilEmpty | src/company.py:62-75 | the read ends at the first empty page and holds exactly the pages before it |
| Company.ReadFailsAt | src/company.py:62-71 | a failing request before any empty page fails the whole read with its error |
| Company.StopsAtEmptyPage | src/company.py:74-75 | pages after an empty one are never read |
| Company.ViasatJobs | src/company.py:77-101 | one job per kept posting, in order, with company "Viasat", the posting's title and id, and its extracted qualifications |
| Company.ViasatJobsKept | src/company.py:79-87 | only postings in Carlsbad whose lower-cased title holds "software" or "devops" give jobs |
| Store.Encode | src/database/db.py:39-48 | a dog's record decodes back to the same dog, image included |
| Store.DecodeAll | src/database/db.py:13-24 | the records decode exactly when none lacks a key |
| Store.Add | src/database/db.py:25 | `set.add` adds the key, keeps what was there unchanged, does nothing for an equal dog, and stores a new dog itself, image included |
| Store.AddAll | src/database/db.py:33-34 | the keys after adding are the old ones plus the new ones, and the earlier dogs stay first and unchanged |
| Store.Load | src/database/db.py:8-28 | a missing, corrupt or key-lacking file loads as empty; a readable one loads as its dogs with no two equal |
| Store.LoadRebuilds | src/database/db.py:13-25 | every record's dog is loaded up to equality, and every loaded dog is rebuilt from some record |
| Store.LoadEncoded | src/database/db.py:15-24 | records written for distinct dogs load back as exactly those dogs |
| Store.RegisterThenLoad | src/database/db.py:31-49 | what is loaded after a register is the earlier content with the new dogs added |
| Store.RegisterIsUnion | src/database/db.py:32-34 | after a register, the stored keys are the earlier keys plus the new ones |
| Store.RegisterKeepsEarlier | src/database/db.py:33-34 | every dog held before stays, unchanged and first, image included |
| Store.RegisterAfterFailure | src/database/db.py:32-49 | after an unreadable file, only the new dogs are written |
| Store.RegisterKnown | src/database/db.py:33-34 | registering dogs already held changes nothing |
| Pipeline.Gathered | src/notification_generator.py:12-15 | every dog of every shelter that answered is gathered |
| Pipeline.GatheredIff | src/notification_generator.py:12-15 | a dog is gathered exactly when some shelter that answered lists it |
| Pipeline.FailedSourcesSkipped | src/notification_generator.py:12-15 | a shelter whose fetch failed adds nothing |
| Pipeline.Notify | src/notification_generator.py:19-23 | the new dogs are the filtered dogs not notified before, in order; each is sent; the file then holds the old keys and the new ones |
| Pipeline.Run | src/notification_generator.py:9-23 | the run fails exactly when the filter raises, and otherwise keeps the promises above |
| Pipeline.RegisteredWhateverDelivered | src/notification_generator.py:21-23 | every new dog is registered whether or not its message was delivered, and the file does not depend on the messenger |
| Pipeline.SecondRunSendsNothing | src/notification_generator.py:10-23 | a second run over the file written, with the same shelters and filter, finds nothing new and sends nothing |
| Pipeline.NeverNotifiedTwice | src/notification_generator.py:10-23 | over two runs in a row, no dog is new in both |
| Pipeline.DuplicatesSentStoredOnce | src/notification_generator.py:19-23 | a dog listed twice is sent every time it is listed but stored once |
| Pipeline.RunWithRules | src/notification_generator.py:17-19 | with the scraper's filter, every dog sent is eligible, and the run fails exactly when some gathered dog makes the check raise |

## Left out

- Lower: `str.lower()` is modelled on ASCII letters only; Python also lower-cases other Unicode letters. This affects the text `ParseAge` echoes, the sex of Helen Woodward dogs, Rancho Coastal's name matching and the filters' lower-cased comparisons.
- IsDigit: `\d` is modelled as the ASCII digits; Python's `\d` also matches other Unicode decimal digits.
- IsWordChar: `\b` and `\w` are modelled as ASCII letters and digits, `_` and the nine fraction glyphs. Python's `\w` covers every Unicode letter and digit.
- ParseAge: returns the exact value (`Exact(real)`) instead of Python's `str(float)`. `1/3`, `/12` and `/52` are exact here, not rounded to a double.
- ParseWeight: returns the exact value in the same way. What a listing stores is `Show(...)`, written in plain decimal notation. For the thirds, Python's rounding to a double is not modelled.
- FloatText: does not model Python's exponent notation or its rounding to a double's 17 significant digits. Python writes `str(float)` as "1e+16" and up from 10^16 on, so "10000000000000000 ½ lbs" is stored as "1e+16" there and as "10000000000000000.5" here. Below 10^16, a value of few enough digits is written as Python writes it.
- DecimalValue: reads decimal notation only. Exponents, `inf`, `nan` and `_` separators are read as failures.
- RequiresExcessiveExperience: the experience search takes no flags, and the text is lower-cased before it, as in the source.
- FindHeader: the header search uses `re.IGNORECASE`, which is modelled as ignoring case on ASCII letters only.
- The HTTP layer (`_http_get`, `requests.get`, timeouts, the Viasat API call and its `raise_for_status`). A fetch is an `Option` or `Result` parameter.
- BeautifulSoup. The extractors start from already-extracted texts (`Product`, `Detail`, `Article`), and HTML-to-text is a function parameter of `ExtractQualifications`.
- `json.load`/`json.dump` and file I/O. The file is the abstract `FileState`. Records map the eight field names to text; JSON `null`s and non-text values are not modelled.
- The order in which the set is written to the file. The model keeps insertion order, and Python's set order is arbitrary.
- The Twilio messenger and `time.sleep`. A notification is a `Dog -> bool` parameter, and its failures never stop the run, as in `send_notification`.
- `main.py`. It duplicates the run and adds only prints.
- The `Config` module, which is not part of this model. SEX, MAX_WEIGHT, MAX_AGE, ALLOWED_BREEDS and BLOCKLIST are parameters (`DogRules`, `blocklist`).
- The module wiring of `src/notification_generator.py`. It imports the job `Scraper`, which has no dog functions. The run is parameterised over the shelters and the filter instead.
- Company.ViasatJobs: the experience check on postings is commented out in the source. The model applies no such check either, and `RequiresExcessiveExperience` is modelled on its own.
- Company.ViasatJobs: a posting without a requisition id or url is not modelled; `Posting` has both as text.
- Company.PostingKept: a JSON `null` title is not modelled. `job_data.get("title", "")` returns `None` for it, and `.lower()` then raises; here a missing title reads as the empty text.
- Company.SplitLines: `str.splitlines()` treats "\r\n" as one break and drops the empty piece after a final break. The model splits at every break character and keeps that empty piece. Only empty pieces differ, and the bullet filter drops them; carriage returns are removed before the split anyway.
- Pipeline.Run: a crash in a shelter extractor or in the messenger is not modelled. Only the filter raises.

## Findings

| source | as written | input that shows it | evidently intended | confidence | as-written member | corrected member |
|---|---|---|---|---|---|---|
| src/animal_shelter.py:195-197 | the sex is lower-cased before `replace(" - Spayed", "")` and `replace(" - Neutered", "")`, so neither capitalised suffix can be found | a detail "Female - Spayed" | the sex "female", which a filter on "female" admits | not executed | SexField.SpayedSuffixKept | SexField.SexCorrectedSpayed |
| src/animal_shelter.py:243-268 | breed, sex, age and weight are assigned only inside `if entry_content:` and are never reset between articles | a named article with a text, then a named article with no `entry-content` div | the second dog with empty fields; the first such article alone does not raise | not executed | Shelters.RanchoStaleField | Shelters.RanchoNoStaleField |
