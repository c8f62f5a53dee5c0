# gophercises: quiz runner and URL redirect handler, modelled in Dafny

The repository holds two small Go programs. This project models the logic of each of them once the I/O around it is removed.

- **urlshort** (`urlshort.dfy`, module `UrlShort`). A route document holds an ordered list of `{path, url}` records. These are folded into a route table, and a later record for the same path overwrites an earlier one. A request whose path is in the table gets a redirect to the table's URL with status 302 Found. Any other request goes to the fallback handler unchanged. `YAMLHandler` decodes the document and returns the decoder's error if it fails. Otherwise it returns the map handler over the records' table.
  - The decoder (`parseYaml`, built on a YAML library) is a function parameter of `YAMLHandler`.
  - Serving a request yields an `Outcome`: either `Redirect(url, 302)` or `ServeFallback(request)`. The second one stands for `fallback.ServeHTTP(w, r)` on the untouched request.
  - `BuildMap` is the `buildMap` loop. `Fold` is the last-wins fold that specifies it. The lemmas characterise `Fold` without recursion: its keys are exactly the records' paths (`FoldKeys`), each key maps to the URL of the last record with that path (`FoldLastWins`, `LastExists`), and the table has no more entries than there are records (`FoldSize`).
- **quiz** (`quiz.dfy`, module `Quiz`, and `strings.dfy`, module `Strings`). CSV rows become problems. The question is kept verbatim and the answer is passed through `TrimSpace`. The problems are then asked in order, and each typed answer that exactly equals the stored answer adds one to the score.
  - The Go program races a quiz-wide timer against a goroutine that reads the console. The model replaces that race with its result, `cutoff: Option<nat>`. `Some(k)` means the timer fired while the quiz was waiting on problem `k`. `None` means it never fired during the quiz.
  - `answers[i]` is the string that `fmt.Scanf("%s\n")` stores for problem `i`: the first word typed, without white space. `RunQuiz` requires one answer for each problem that is reached before the timer fires. This describes the environment; the loop makes no such demand.
  - The report is `TimesUp(correct, total)` or `Completed(correct, total)`, matching the two final messages. `total` is always the number of problems.
  - `Matches(problems, answers, k)` counts the exact matches among the first `k` problems. `MatchesCountsMatchSet` ties it to the set of matching indices.
  - `Strings.TrimSpace` models Go's `strings.TrimSpace` over a fixed white-space set. That set is the ASCII tab, line feed, vertical tab, form feed, carriage return and space, plus U+0085, U+00A0, U+1680, U+2000 to U+200A, U+2028, U+2029, U+202F, U+205F and U+3000. This is Unicode's White_Space property, which Go's `unicode.IsSpace` uses.

The shared `Option` and `Result` types are in `wrappers.dfy`.

Three behaviours of the code that a reader might expect to be otherwise:
- **Short rows.** A row with fewer than two fields makes `parseLines` index out of range; it does not report an error. The model states this as the precondition `WellFormed(lines)`.
- **The comparison does not trim.** The comparison at quiz/main.go:47 does not trim the typed answer; a typed string with white space at either end never equals a stored answer (`PaddedAnswerMisses`). In the program such a string does not reach the comparison: `fmt.Scanf`'s `%s` reads one word with no white space, so a padded typed line is reduced to its first word before it is compared.
- **Time limit.** A non-positive time limit is not rejected; the Go timer then fires at once. The model covers this case as `cutoff == Some(0)`, where the timer fires while waiting on the first problem.

## Model

| member | source | states |
|---|---|---|
| Strings.IsSpace | quiz/main.go:62 | the white-space set `TrimSpace` cuts (Go's `unicode.IsSpace`: Unicode's White_Space characters); on ASCII it is exactly tab, line feed, vertical tab, form feed, carriage return and space |
| Strings.TrimSpace | quiz/main.go:62 | the trimmed answer has no white space at its first or last position |
| Strings.TrimSpaceCutsSpace | quiz/main.go:62 | the trimmed string is a contiguous part of the input, and only white space is cut off before and after it |
| Strings.TrimSpaceUnique | quiz/main.go:62 | any part of `s` with no edge white space and only white space around it equals `TrimSpace(s)`, so the trimming contract determines the result |
| Strings.TrimSpaceIdempotent | quiz/main.go:62 | trimming an already trimmed answer changes nothing |
| Strings.TrimmedStaysPut | quiz/main.go:62 | a string without edge white space is its own trimming |
| Strings.TrimSpaceExample | quiz/main.go:62 | the stored answer `42 ` becomes `42` |
| Strings.TrimLeftCuts | quiz/main.go:62 | left trimming keeps a suffix and cuts only white space |
| Strings.TrimRightCuts | quiz/main.go:62 | right trimming keeps a prefix and cuts only white space |
| Quiz.ProblemOf | quiz/main.go:60-63 | the problem a row stands for keeps the row's question verbatim and stores an answer with no white space at either end |
| Quiz.ProblemsOf | quiz/main.go:56-66 | one problem per row: the result has as many problems as there are rows |
| Quiz.ParseLines | quiz/main.go:56-66 | the loop that fills the preallocated slice gives one problem per row, in row order; problem `i` has question `lines[i][0]` and answer `TrimSpace(lines[i][1])`, and every stored answer is trimmed; rows need at least two fields |
| Quiz.ProblemsOfRows | quiz/main.go:59-63 | problem `i` keeps row `i`'s question verbatim, and its answer is row `i`'s answer trimmed, with no edge white space |
| Quiz.Answered | quiz/main.go:32-45 | the number of problems that get an answer is never more than the number of problems |
| Quiz.Matches | quiz/main.go:31-49 | the score over the first `k` problems never exceeds `k` |
| Quiz.MatchesCountsMatchSet | quiz/main.go:46-49 | the score is the number of indices whose typed answer equals the stored answer |
| Quiz.MatchesIgnoresLaterAnswers | quiz/main.go:42-45 | the score over the first `k` problems depends only on the first `k` answers, so answers after the timer fires do not count |
| Quiz.AllExactAnswersScoreAll | quiz/main.go:46-49 | typing the stored answer for every problem scores every problem |
| Quiz.PaddedAnswerMisses | quiz/main.go:47 | a typed answer that starts or ends with white space never equals a stored, trimmed answer |
| Quiz.RunQuiz | quiz/main.go:31-52 | the quiz times up exactly when the cutoff falls on an existing problem; the total is always the number of problems; the score counts exact matches among the problems before the cutoff (all problems if there is none); score <= answered <= total |
| Quiz.Play | quiz/main.go:29-52 | parsing and then scoring reports a score out of the number of rows, counting exact matches against the trimmed answers of the rows reached before the cutoff |
| Quiz.ScenarioBothInTime | quiz/main.go:29-52 | for the rows `2+2,4` and `capital of France,Paris`, answering `4` and `Paris` in time scores 2 out of 2 |
| Quiz.PaddedRowMatchesBareAnswer | quiz/main.go:62 | a CSV answer padded with white space stores the bare answer, and typing the bare answer scores |
| Quiz.CaseDiffersNoMatch | quiz/main.go:47 | the comparison is case-sensitive: `Answer` does not match `answer` |
| UrlShort.BuildMap | urlshort/handler.go:70-76 | the loop yields the last-wins fold of the records: its keys are exactly the records' paths, each path maps to the URL of the last record with that path, and no records give the empty map |
| UrlShort.FoldKeys | urlshort/handler.go:71-74 | every record's path is a key of the table, and there are no other keys |
| UrlShort.FoldLastWins | urlshort/handler.go:72-74 | for the last record with path `p`, the table maps `p` to that record's URL |
| UrlShort.LastExists | urlshort/handler.go:72-74 | every path that occurs in the records has a last record |
| UrlShort.FoldSize | urlshort/handler.go:70-76 | the table has no more entries than there are records |
| UrlShort.DuplicatePathLastWins | urlshort/handler.go:72-74 | the records `/a -> http://x` and then `/a -> http://y` give the table `{/a: http://y}` |
| UrlShort.Serve | urlshort/handler.go:16-29 | a request redirects exactly when its path is a key; the redirect goes to the key's URL with status 302; otherwise the fallback receives the original request unchanged |
| UrlShort.RoutesOfRecords | urlshort/handler.go:55-57 | a handler built from records redirects a request to the URL of the last record with its path, with status 302, and passes a request with any other path to the fallback unchanged |
| UrlShort.YAMLHandler | urlshort/handler.go:48-59 | a decode failure returns that error and no handler; on success it returns the map handler over the fold of the decoded records, which redirects each path to its last record's URL and sends every other path to the fallback |

## Left out

- HTTP machinery: `http.ResponseWriter`, `*http.Request`, `http.Redirect` and `fallback.ServeHTTP` are library calls. They become the `Outcome` value, and a request is its URL path plus an opaque remainder.
- The debug `fmt.Printf` in `MapHandler` writes output only.
- YAML decoding (`parseYaml` over `yaml.Unmarshal`) is a library. It is a function parameter of `YAMLHandler`, and its errors are an opaque `ParseError`.
- Startup I/O in the quiz: flag parsing, opening the CSV file, the CSV reader, and `exit`/`os.Exit` on failure. These are file and command-line I/O and a library parser.
- The timer and the answer-reading goroutine with their `select`: this is concurrency. It is replaced by the `cutoff` input, which says on which problem the timer fired, if any.
- Console reading with `fmt.Scanf("%s\n")`, including how it splits input into tokens: this is console I/O. The model takes the typed strings as given.
- Because `%s` reads a single word, a stored answer with inner white space (such as `New York`) can never be matched by what the user types; the model, which takes typed strings as given, does not show this.
- The printed prompts and score messages: their formatting is not modelled, only the `(correct, total)` values and which of the two endings occurs.
- Strings.TrimSpace: does not model invalid UTF-8 input, because strings here are sequences of Unicode scalar values.
