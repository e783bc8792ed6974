# CV keyword scorer

A model of the scoring step of a CV-intake handler (an AWS Lambda function
that reacts to a CV uploaded to an S3 bucket). The scorer takes the CV's
text and, for each entry of a fixed table of keywords with points, adds
that entry's points when the keyword occurs anywhere in the text, ignoring
letter case. The result is the integer total.

- `strings.dfy`, module `Strings`: the lower-casing done by `str.lower()`,
  restricted to ASCII. It also holds `IsSubstring`, the test done by
  Python's `sub in s`, with the lemmas about it that the scorer needs.
- `app.dfy`, module `App`: the table `KEYWORDS` as a sequence of `Entry`
  values in the dictionary's insertion order. It holds `Score`, the
  specification of the total for any table. It holds `EvaluateCv`, the
  loop of `evaluate_cv`, proved equal to `Score` over `KEYWORDS`. The
  properties of the score are lemmas about `Score`.

`evaluate_cv` returns the raw sum, and `send_notification` publishes it
unscaled (src/app.py:50, src/app.py:96). The model states the raw sum's
bounds, 0 to 33.

## Model

| member | source | states |
|---|---|---|
| `Strings.LowerChar` | src/app.py:73 | the lower-cased character is never a capital, and a character is unchanged exactly when it is not a capital |
| `Strings.Lower` | src/app.py:73 | `s.lower()` keeps the length of `s` and leaves no capital letter |
| `Strings.LowerOfLowerCase` | src/app.py:73 | lower-casing a string without capitals returns it unchanged (this is why `keyword.lower()` is the keyword itself) |
| `Strings.LowerIdempotent` | src/app.py:73 | lower-casing twice equals lower-casing once |
| `Strings.LowerSlice` | src/app.py:73 | lower-casing commutes with taking a slice |
| `Strings.IsSubstring` | src/app.py:73 | `sub in s`, defined as "a prefix of `s`, or in `s` without its first character"; it can hold only when `sub` is no longer than `s`; `IsSubstringIff` ties it to occurrence at an index |
| `Strings.IsSubstringIff` | src/app.py:73 | the recursive `sub in s` holds exactly when `sub` occurs in `s` at some index |
| `Strings.LongerIsNotSubstring` | src/app.py:73 | a string longer than `s` is never in `s` |
| `Strings.MissingCharIsNotSubstring` | src/app.py:73 | a string holding a character that `s` lacks is not in `s` |
| `Strings.IsSubstringTransitive` | src/app.py:73 | a substring of a substring of `s` is a substring of `s` |
| `Strings.IsSubstringOfConcat` | src/app.py:73 | `s` is in `s + u` and in `u + s` |
| `Strings.LowerKeepsSubstring` | src/app.py:73 | if `sub` is in `s` then `sub.lower()` is in `s.lower()` |
| `App.KeywordsTotalPoints` | src/app.py:20-26 | the points of `KEYWORDS` add up to 33 |
| `App.KeywordsPositive` | src/app.py:20-26 | every entry of `KEYWORDS` is worth a positive number of points |
| `App.KeywordsLowerCase` | src/app.py:20-26 | every keyword is non-empty and already lower-case |
| `App.KeywordsDistinct` | src/app.py:20-26 | no keyword appears twice, as in a dictionary, so each keyword's points enter the score at most once |
| `App.EvaluateCv` | src/app.py:67-75 | the loop's `total` equals `Score` over `KEYWORDS` and lies between 0 and 33; the loop invariant is that `total` is the score of the entries visited so far |
| `App.ScoreAppend` | src/app.py:71-74 | the score against a table split in two is the sum of the scores of the two parts, so each iteration adds exactly its own entry's contribution |
| `App.Matched` | src/app.py:72-73 | the entries kept are exactly the table entries whose lower-cased keyword is in the lower-cased text, each kept exactly as many times as it appears in the table and a non-matching one never |
| `App.ScoreIsSumOfMatched` | src/app.py:71-75 | the score is the sum of the points of exactly the matching entries |
| `App.Matches` | src/app.py:73 | `keyword.lower() in text.lower()`: it holds exactly when the lower-cased keyword occurs at some index of the lower-cased text |
| `App.Score` | src/app.py:71-75 | the total the loop returns, defined over any table as one term per entry, the entry's points when it matches and 0 otherwise; with non-negative points it lies between 0 and the sum of all points; `EvaluateCv` is proved equal to it and `ScoreIsSumOfMatched` ties it to the sum over `Matched` |
| `App.ScoreZeroIff` | src/app.py:71-75 | with positive points the score is 0 if and only if no entry matches |
| `App.ScoreFullIff` | src/app.py:71-75 | with positive points the score is the sum of all points if and only if every entry matches |
| `App.ScoreDependsOnlyOnMatches` | src/app.py:72-74 | two texts matched by the same entries score the same, however often or wherever the keywords occur: each keyword counts at most once |
| `App.ScoreIgnoresCase` | src/app.py:73 | two texts that differ only in letter case score the same |
| `App.ScoreOfLower` | src/app.py:69-73 | a text scores the same as its lower-cased form |
| `App.MatchesInLarger` | src/app.py:73 | an entry that matches `t` matches every text containing `t`, ignoring case |
| `App.ScoreMonotone` | src/app.py:73 | a text that contains `t`, ignoring case, scores at least as much as `t`, and at least an entry's points more when it matches an entry that `t` does not |
| `App.ScoreOfExtension` | src/app.py:73 | extending a text on either side never lowers its score |
| `App.EmptyTextScoresZero` | src/app.py:73 | the empty text scores 0 against any table whose keywords are all non-empty |
| `App.EmptyCvScoresZero` | src/app.py:20-26 | the empty text scores 0 against `KEYWORDS` |
| `App.KeywordsScore` | src/app.py:20-26 | the score against `KEYWORDS` is the five-term sum 5, 10, 5, 8, 5, each term present when its keyword is in the lower-cased text |
| `App.PythonAndAwsScoreAtLeast18` | src/app.py:20-26 | any text containing "python" and "aws", in any letter case, scores at least 18 |
| `App.JavaInsideWordScores` | src/app.py:25 | any text containing "java", even inside a longer word, scores at least 5: there is no word-boundary check |
| `App.JavaScriptScoresFive` | src/app.py:25 | "javascript" in any letter case scores exactly 5, the points of "java" |
| `App.RepeatedKeywordCountsOnce` | src/app.py:72-74 | "python python python" in any letter case scores 8, not three times 8 |
| `App.PythonAndAwsExample` | src/app.py:20-26 | "Python y AWS" in any letter case scores exactly 18 |

## Left out

- Lower-casing is ASCII only. Python's `str.lower()` also maps non-ASCII capitals and can change a string's length, which the model does not capture.
- `evaluate_cv` is modelled on strings only. The handler passes it the `None` that `extract_text_CV` returns, and `None.lower()` would raise; that path is not modelled.
- `lambda_handler` (src/app.py:29-53) is left out: it unpacks the S3 event, reads the `SNS_TOPIC_ARN` environment variable and logs.
- `extract_text_CV` (src/app.py:56-64) is left out: it only starts an external Textract job and returns `None`.
- `calculate_similarity` (src/app.py:77-86) is left out: it relies on a sentence-embedding model and floating-point cosine similarity.
- `send_notification` (src/app.py:88-102) is left out: it publishes to SNS with a wall-clock timestamp.
- The module-level clients, model loading and logging (src/app.py:9-16) are left out, as is the diagnostic logging.
