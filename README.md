# lets-go in Dafny

A Dafny model of the sequential logic in the Go tutorial programs of
`lets-go`: the depth-bounded, deduplicating web crawler, the rot13 reader and
the `String()` methods, the word counter, the closures that keep state
between calls, the 2-D picture fill, the slice-aliasing and slice-growing
demos, the mutex-guarded counter, the channel demos reduced to what they
compute, the small functions and loops of `init.go` and `hmm.go`, and the
binary-tree comparison `Same`.

One module per Go file, plus three shared modules:

| module | Go file |
|---|---|
| `Wrappers` | `Option`, standing for Go's `error` (`None` is `nil`) |
| `GoInt` | sums, products, Fibonacci numbers, powers of two, Go's truncating `/`, shifts, the `int64` range |
| `Fmt` | `%d` decimal text, splitting and joining on one character |
| `WebCrawler` | bootstrap/go_rulez/concurrent_web_crawler.go |
| `KillinIt` | bootstrap/killin_it/killin_it.go |
| `CountWords` | bootstrap/cool_whats_more/count_words.go |
| `FibonacciClosure` | bootstrap/cool_whats_more/fibonacci_using_closures.go |
| `PicGenerator` | pic_generator.go |
| `CoolWhatsMore` | bootstrap/stages/cool_whats_more/cool_whats_more.go |
| `GoRulez` | bootstrap/stages/go_rulez/go_rulez.go |
| `InitBasics` | init.go |
| `Hmm` | bootstrap/hmm/hmm.go |
| `TreeChecker` | bootstrap/go_rulez/concurrent_binary_tree_checker.go |

How the Go constructs are modelled:

- **Mutated state** becomes a class. `UrlCache`, `SafeCounter`, the closures
  (`Fibonacci`, `Adder`, `Multiplexer`, `CrazyClosure`, whose fields are the
  captured variables) and the channel `Chan` are classes. Their methods carry
  `modifies` clauses and their functions carry `reads` clauses. Ghost fields
  (`calls`, `args`) record the call history that an invariant `Valid()`
  relates to the fields.
- **Goroutines** are run one after the other. The crawler explores the
  children of a page in slice order, each to completion. This is one legal
  interleaving of the concurrent original. The mutex and the `done_chan`
  barrier become ordinary calls. In `Same`, the `select` loop takes a
  `schedule` parameter that picks the channel whenever both are ready, so
  its contract holds for every interleaving.
- **The crawler** has a specification function `Explore` over a state that
  holds the cache and the list of fetched URLs. The imperative `CrawlHelper`,
  working on a `UrlCache`, is proved equal to it. The rest is proved about
  `Explore`: deduplication, the depth bound, that the links of a page fetched
  without error are all crawled, and failure isolation (a failed fetch stops
  its own branch but not its siblings).
- **Go's `strings.Fields`** splits at the characters `unicode.IsSpace`
  accepts. The Go code calls it, so the model uses that whole set of
  characters, not only ASCII white space. Characters are Dafny `char`s with
  no UTF-8 decoding.
- **Integers** are unbounded. The two Fibonacci loops model Go's 64-bit `int`
  explicitly: their `+` is `Add64`, the sum with one wrap on overflow, proved
  equal to two's-complement wrap-around (`Wrap64`) of the exact sum. The model
  proves that their values are exact up to F(92) and that F(93) comes out as a
  negative number. Elsewhere the
  values are left unbounded and each such member is listed under "Left out".

## Model

| member | source | states |
|---|---|---|
| WebCrawler.FakeFetch | bootstrap/go_rulez/concurrent_web_crawler.go:96-101 | a known URL yields its stored body and links with a nil error; an unknown one yields an empty body, no links and the error "not found: " + url, and the error is nil exactly for known URLs |
| WebCrawler.UrlCache.constructor | bootstrap/go_rulez/concurrent_web_crawler.go:36 | `Crawl`'s cache starts empty |
| WebCrawler.UrlCache.PutUrl | bootstrap/go_rulez/concurrent_web_crawler.go:19-24 | afterwards the URL maps to the given status, and every other key is present and mapped as before |
| WebCrawler.UrlCache.GetUrl | bootstrap/go_rulez/concurrent_web_crawler.go:26-31 | ok is true exactly when the URL is cached, the status is the cached one (nil when absent), and the method changes nothing |
| WebCrawler.ExploreExtends | bootstrap/go_rulez/concurrent_web_crawler.go:49-82 | one crawl step only adds cache entries, never changes an old one, records for each new URL the status the fetcher returned, and fetches each new URL exactly once, so the fetched URLs are exactly the new keys |
| WebCrawler.ExploreAllExtends | bootstrap/go_rulez/concurrent_web_crawler.go:68-80 | the same growth and fetch-once facts for crawling all children of a page in order |
| WebCrawler.ExploreStaysInDepth | bootstrap/go_rulez/concurrent_web_crawler.go:49-75 | every URL a crawl adds to the cache is reachable from the start URL in at most depth - 1 hops along links of pages fetched without error |
| WebCrawler.ExploreAllStaysInDepth | bootstrap/go_rulez/concurrent_web_crawler.go:69-75 | every URL added while crawling the children is within depth - 1 hops of one of the children |
| WebCrawler.ExploreRecords | bootstrap/go_rulez/concurrent_web_crawler.go:50-59 | with depth >= 1 the URL is in the cache when its crawl returns, cached before or fetched and recorded now |
| WebCrawler.ExploreAllCovers | bootstrap/go_rulez/concurrent_web_crawler.go:69-80 | with depth >= 1 every child link is in the cache after the children are crawled, whether or not the fetches of its siblings fail |
| WebCrawler.ExploreCoversLinks | bootstrap/go_rulez/concurrent_web_crawler.go:58-80 | a page not yet cached, fetched without error at depth >= 2, has all of its links in the cache when its crawl returns |
| WebCrawler.CrawlHelper | bootstrap/go_rulez/concurrent_web_crawler.go:49-82 | the new cache and fetch log equal the specification `Explore`; with depth <= 0 or a cached URL nothing is fetched and the cache is unchanged; on a fetch error the cache gains just that URL with its error and no child is crawled; a fetched URL's status is recorded; after a fetch without error at depth >= 2 every link of the page is in the cache; the cache grows as `ExploreExtends` states |
| WebCrawler.Crawl | bootstrap/go_rulez/concurrent_web_crawler.go:35-47 | the reported cache is the specification's result from an empty cache; its keys are exactly the URLs fetched, each fetched once; each status is the fetcher's; each key is within depth - 1 hops of the seed; depth <= 0 reports nothing and depth > 0 includes the seed; at depth >= 2, if the seed is fetched without error, every link on it is in the report |
| WebCrawler.GolangReplies | bootstrap/go_rulez/concurrent_web_crawler.go:104-135 | the replies of the populated fake fetcher for the five URLs involved, /cmd/ being the missing page |
| WebCrawler.MainCrawl | bootstrap/go_rulez/concurrent_web_crawler.go:84-86 | `Crawl("https://golang.org/", 4, fetcher)` fetches /, /pkg/, /cmd/, /pkg/fmt/, /pkg/os/ in that order, records /cmd/ with its "not found" error and the rest as fetched |
| WebCrawler.DepthFirstMissesPage | bootstrap/go_rulez/concurrent_web_crawler.go:50-59 | a page two hops from the seed can stay unfetched under depth 3: a page first reached by a longer path is cached with too little depth left, and the later shorter visit is skipped as already fetched |
| KillinIt.Rot13Byte | bootstrap/killin_it/killin_it.go:636-644 | lower-case letters move 13 places within 'a'..'z'; 'A'..'Y' move 13 places within 'A'..'Z'; every other byte, 'Z' included, is unchanged |
| KillinIt.Rot13LowerInvolution | bootstrap/killin_it/killin_it.go:637-639 | on lower-case letters the rule stays lower-case and undoes itself |
| KillinIt.Rot13ByteNotInvolutive | bootstrap/killin_it/killin_it.go:640-642 | 'M' becomes 'Z' and 'Z' stays 'Z', so applying the rule twice does not give 'M' back |
| KillinIt.Rot13ByteFixed | bootstrap/killin_it/killin_it.go:636-644 | with the bound `<= 'Z'`, lower-case stays lower-case, upper-case stays upper-case and other bytes stay other bytes |
| KillinIt.Rot13FixedInvolution | bootstrap/killin_it/killin_it.go:636-644 | the corrected rule undoes itself on every byte, agrees with the original everywhere except 'Z', and maps 'Z' to 'M' |
| KillinIt.Rot13Read | bootstrap/killin_it/killin_it.go:634-646 | returns the wrapped reader's n and err unchanged, and every byte of the whole buffer, not only the first n, is the rule as written applied to what the wrapped read left there; off 'Z' this is the corrected cipher |
| KillinIt.MyReaderRead | bootstrap/killin_it/killin_it.go:625-627 | returns 0 and nil and leaves the buffer untouched |
| KillinIt.IPAddrString | bootstrap/killin_it/killin_it.go:414-418 | the text starts and ends with a double quote |
| KillinIt.IPAddrRoundTrip | bootstrap/killin_it/killin_it.go:414-418 | parsing the quoted dotted text gives back the four bytes, so the text is the four bytes in decimal joined by '.' in quotes |
| KillinIt.HostStrings | bootstrap/killin_it/killin_it.go:394-397 | the two hosts print as "127.0.0.1" and "8.8.8.8" with their quotes |
| KillinIt.PairString | bootstrap/killin_it/killin_it.go:56-60 | the text is "(", the decimal x, ", ", the decimal y and ")" |
| KillinIt.PairRoundTrip | bootstrap/stages/go_rulez/go_rulez.go:325-329 | parsing `pair.String`'s text gives back (x, y) for any ints, negative ones included; the same definition serves both files' `pair` |
| Fmt.NatDecRoundTrip | bootstrap/killin_it/killin_it.go:417 | reading back the decimal digits of a natural number gives the number |
| Fmt.IntDecRoundTrip | bootstrap/killin_it/killin_it.go:59 | reading back `%d` of any int, with its minus sign, gives the int |
| Fmt.SplitJoin | bootstrap/killin_it/killin_it.go:417 | splitting a joined list at the separator gives the list back when no part holds the separator |
| CountWords.Fields | bootstrap/cool_whats_more/count_words.go:9 | every field is non-empty and holds no white space |
| CountWords.FieldsKeepText | bootstrap/cool_whats_more/count_words.go:9 | the fields, concatenated, are the text with its white space removed |
| CountWords.FieldsOfNoSpace | bootstrap/cool_whats_more/count_words.go:9 | a non-empty text without white space is exactly one field, so a run is never cut apart |
| CountWords.FieldsSplitAtSpace | bootstrap/cool_whats_more/count_words.go:9 | a text is split at every white space character: the fields of a + c + b, with c white space, are the fields of a followed by those of b |
| CountWords.FieldsEmpty | bootstrap/cool_whats_more/count_words.go:9-10 | there are no fields exactly when the text is all white space |
| CountWords.CountStep | bootstrap/cool_whats_more/count_words.go:11-17 | one loop iteration keeps the map a correct count of the words seen so far |
| CountWords.WordCount | bootstrap/cool_whats_more/count_words.go:8-20 | the keys are exactly the distinct fields, each value is that field's number of occurrences and at least 1, the values add up to the number of fields, and blank text yields an empty map |
| FibonacciClosure.Fibonacci.constructor | bootstrap/cool_whats_more/fibonacci_using_closures.go:7-8 | the captured pair starts at (0, 1) = (F(0), F(1)) |
| FibonacciClosure.Fibonacci.Call | bootstrap/cool_whats_more/fibonacci_using_closures.go:9-13 | `next := i + j` is Go's 64-bit addition; after k calls the pair is (F(k), F(k+1)) as 64-bit values, and the k-th call returns the old j, which is F(k) wrapped into int64 and exactly F(k) for k <= 92 |
| FibonacciClosure.FirstCalls | bootstrap/cool_whats_more/fibonacci_using_closures.go:19-21 | successive calls return F(1), F(2), ... as the 64-bit recurrence computes them: each is the exact Fibonacci number wrapped into int64, and the first 92 are exact |
| FibonacciClosure.SeventyCalls | bootstrap/cool_whats_more/fibonacci_using_closures.go:17-23 | `main`'s 70 calls return exactly F(1) .. F(70), starting 1, 1, 2, 3, 5 and ending with 190392490709135: no overflow happens |
| FibonacciClosure.NinetyThreeCalls | bootstrap/cool_whats_more/fibonacci_using_closures.go:9-13 | with 93 calls, call 92 still returns F(92) = 7540113804746346429, but call 93 returns F(93) - 2^64 = -6246583658587674878, a negative number |
| GoInt.FibFitsInt64 | bootstrap/cool_whats_more/fibonacci_using_closures.go:10 | every Fibonacci number up to F(92) fits in int64 |
| GoInt.Fib92 | bootstrap/cool_whats_more/fibonacci_using_closures.go:10 | F(92) = 7540113804746346429 |
| GoInt.Fib93 | bootstrap/cool_whats_more/fibonacci_using_closures.go:10 | F(93) = 12200160415121876738 |
| GoInt.FibInt64Edge | bootstrap/cool_whats_more/fibonacci_using_closures.go:10 | F(92) fits in int64 and F(93) does not, so the first overflowing `next` is the one computed by call 92 |
| GoInt.Add64Wraps | bootstrap/cool_whats_more/fibonacci_using_closures.go:10 | Go's `a + b` on two int64 values, computed as the sum with one wrap on overflow, equals the exact sum wrapped into int64 by two's complement |
| GoInt.Fib64Exact | bootstrap/cool_whats_more/fibonacci_using_closures.go:10-11 | the Fibonacci numbers computed with 64-bit additions are the exact ones up to F(92) |
| GoInt.Fib64Wraps | bootstrap/cool_whats_more/fibonacci_using_closures.go:10-11 | every Fibonacci number computed with 64-bit additions is the exact one wrapped into int64, however far the loop runs |
| FibonacciClosure.IndependentClosures | bootstrap/cool_whats_more/fibonacci_using_closures.go:7-15 | each `fibonacci()` call makes its own state: two calls on one closure do not advance another |
| GoInt.FibAdd | bootstrap/cool_whats_more/fibonacci_using_closures.go:10-11 | the addition law F(m+n+1) = F(m+1) F(n+1) + F(m) F(n), which gives the values F(70) and F(71) |
| PicGenerator.Pic | pic_generator.go:10-23 | exactly dy rows, each a fresh array of exactly dx entries, no two rows the same array, and entry (i, j) is `uint8(i*j)` |
| PicGenerator.Shade | pic_generator.go:19 | the shade is i*j whenever that is below 256 |
| PicGenerator.ShadeEdgesAndSymmetry | pic_generator.go:19 | row 0 and column 0 are zero and the picture is symmetric |
| PicGenerator.ShadeWraps | pic_generator.go:19 | the byte conversion wraps: row 16 goes 240, 0, 16 at columns 15, 16, 17 |
| CoolWhatsMore.SumItVarargs | bootstrap/stages/cool_whats_more/cool_whats_more.go:589-596 | the sum of all arguments, 0 for none |
| CoolWhatsMore.Adder.constructor | bootstrap/stages/cool_whats_more/cool_whats_more.go:622-623 | `res` starts at 0 with no calls made |
| CoolWhatsMore.Adder.Call | bootstrap/stages/cool_whats_more/cool_whats_more.go:624-627 | after calls with x1..xk the result is x1 + ... + xk |
| CoolWhatsMore.Multiplexer.constructor | bootstrap/stages/cool_whats_more/cool_whats_more.go:630-631 | `res` starts at 1 with no calls made |
| CoolWhatsMore.Multiplexer.Call | bootstrap/stages/cool_whats_more/cool_whats_more.go:632-635 | after calls with x1..xk the result is x1 * ... * xk |
| CoolWhatsMore.CrazyClosure.constructor | bootstrap/stages/cool_whats_more/cool_whats_more.go:644-651 | both `sum_me` and `mult_me` start at 1 |
| CoolWhatsMore.CrazyClosure.Adder | bootstrap/stages/cool_whats_more/cool_whats_more.go:645-649 | returns 1 plus the sum of its arguments so far and leaves the multiplexer's state alone |
| CoolWhatsMore.CrazyClosure.Multiplexer | bootstrap/stages/cool_whats_more/cool_whats_more.go:652-656 | returns the product of its arguments so far and leaves the adder's state alone |
| CoolWhatsMore.Closures | bootstrap/stages/cool_whats_more/cool_whats_more.go:604-610 | round i prints 0 + ... + i and (i+1)! |
| CoolWhatsMore.CrazyClosures | bootstrap/stages/cool_whats_more/cool_whats_more.go:613-619 | round i prints 1 + (0 + ... + i) and (i+1)! |
| CoolWhatsMore.Sentence | bootstrap/stages/cool_whats_more/cool_whats_more.go:580 | the sentence splits into `before`, a space, `mystring`, a space and `after` |
| CoolWhatsMore.SentenceFactory | bootstrap/stages/cool_whats_more/cool_whats_more.go:578-582 | the returned function builds that sentence for any two arguments |
| CoolWhatsMore.SummerSentences | bootstrap/stages/cool_whats_more/cool_whats_more.go:569-573 | "A beautiful summer day!" and "A lazy summer afternoon!" |
| CoolWhatsMore.Slice.From | bootstrap/stages/cool_whats_more/cool_whats_more.go:352-354 | `s[lo:]` shares the backing array and starts lo elements later |
| CoolWhatsMore.SetAt | bootstrap/stages/cool_whats_more/cool_whats_more.go:355-358 | a write through a slice changes its backing array at the slice's offset and nothing else |
| CoolWhatsMore.PassStuffToMe | bootstrap/stages/cool_whats_more/cool_whats_more.go:349-361 | the write through `a` lands in `sli1[1]`; the writes through `b` and `c` both land in the callee's copy of `arr`, which ends as [arr[0], -1, -2] |
| CoolWhatsMore.PassStuffDemo | bootstrap/stages/cool_whats_more/cool_whats_more.go:343 | the call leaves the caller's slice [1, 999, 3], the callee's array [1, -1, -2] and the caller's array [1, 2, 3] |
| CoolWhatsMore.Grow | bootstrap/stages/cool_whats_more/cool_whats_more.go:307-312 | a fresh backing array, the same length, capacity (cap+1)*2, the contents copied and the rest zero |
| CoolWhatsMore.GrowFiveBytes | bootstrap/stages/cool_whats_more/cool_whats_more.go:307-312 | `make([]byte, 5)` grows to capacity 12 holding five zero bytes |
| GoRulez.SafeCounter.constructor | bootstrap/stages/go_rulez/go_rulez.go:310 | the counter starts with an empty map |
| GoRulez.SafeCounter.Value | bootstrap/stages/go_rulez/go_rulez.go:286-291 | the stored count, or 0 for an absent key, without changing the map |
| GoRulez.SafeCounter.Inc | bootstrap/stages/go_rulez/go_rulez.go:278-283 | the key's count goes up by one (from 0 if absent) and every other key's count is unchanged |
| GoRulez.Mutexes | bootstrap/stages/go_rulez/go_rulez.go:310-316 | n calls of `Inc("somekey")` on a fresh counter give `Value("somekey") == n` and no other key |
| GoInt.SumAppend | bootstrap/stages/go_rulez/go_rulez.go:151-152 | the sum of a concatenation is the sum of the sums of its parts |
| GoRulez.SumTogether | bootstrap/stages/go_rulez/go_rulez.go:143-156 | the two received sums are the sums of `sli[:len/2]` and `sli[len/2:]` in the arrival order and add up to the sum of `sli` either way |
| GoRulez.SumTogetherDemo | bootstrap/stages/go_rulez/go_rulez.go:85-86 | for [7, 2, 8, -9, 4, 0] the halves are 17 and -5 in either order and the total is 12 |
| GoRulez.FibSender | bootstrap/stages/go_rulez/go_rulez.go:159-166 | sends exactly n values (none for n <= 0), F(0), F(1), ... as Go's 64-bit `x+y` computes them: each is the exact Fibonacci number wrapped into int64 and is exact up to F(92); then it closes the channel |
| GoRulez.CloseAndLoopChannels | bootstrap/stages/go_rulez/go_rulez.go:168-173 | the range loop prints 0 1 1 2 3 5 8 13 21 34 |
| InitBasics.AddsAgree | init.go:244-256 | `add` and `same_add_with_shortened_def` agree and are x + y; `add(1, 2)` is 3 |
| InitBasics.SwapStrings | init.go:259-261 | the pair comes back reversed |
| InitBasics.SwapTwice | init.go:259-261 | swapping twice gives the original pair; `main`'s call gives ("First", "Second") |
| InitBasics.SwapAndShortenDef | init.go:266-268 | the first result is `add` of the ints and the other two are `swap_strings` of the strings |
| InitBasics.SwapAndShortenDemo | init.go:221 | `swap_and_shorten_def(10, 20, "Second", "First")` is (30, "First", "Second") |
| GoInt.GoDiv | init.go:274 | Go's `/`: the remainder has the sign of the dividend and is smaller than the divisor in size |
| InitBasics.Split | init.go:273-279 | x + y == sum, and x is 4/9 of sum rounded toward zero |
| InitBasics.SplitValues | init.go:223 | `split(20)` is (8, 12); `split(-20)` is (-8, -12) |
| InitBasics.ConstantValues | init.go:103-114 | `Big` is 2^100, `Small` is 2, and `MaxInt_2` is the largest int64 |
| Hmm.ForInit | bootstrap/hmm/hmm.go:82-114 | `sum` is n(n-1)/2 for n >= 0 and 0 otherwise; `sum2` is the smallest power of two >= n; `sum3` is the smallest power of two >= 2 that is >= n |
| GoInt.TriangleClosedForm | bootstrap/hmm/hmm.go:88-90 | 0 + 1 + ... + (n-1) is n(n-1)/2 |
| Hmm.ForInitTen | bootstrap/hmm/hmm.go:16 | `for_init(10)` prints 45, 16 and 16 |
| Hmm.DeferRule1 | bootstrap/hmm/hmm.go:251-257 | the function returns 10000 while the deferred call's argument captured 9999 |
| Hmm.DeferRule3 | bootstrap/hmm/hmm.go:259-263 | the deferred increment of the named result turns `return 1` into 2 |
| TreeChecker.InOrderVisitsAll | bootstrap/go_rulez/concurrent_binary_tree_checker.go:7-13 | the in-order walk has one entry per node and holds exactly the tree's values |
| TreeChecker.SearchTreeWalkSorted | bootstrap/go_rulez/concurrent_binary_tree_checker.go:7-13 | the walk of a search tree, the shape `tree.New` builds, is sorted |
| TreeChecker.Chan.constructor | bootstrap/go_rulez/concurrent_binary_tree_checker.go:25 | a new channel has nothing sent and is open |
| TreeChecker.Chan.Send | bootstrap/go_rulez/concurrent_binary_tree_checker.go:10 | a send appends the value |
| TreeChecker.Chan.Close | bootstrap/go_rulez/concurrent_binary_tree_checker.go:19 | closing keeps what was sent |
| TreeChecker.WalkInOrder | bootstrap/go_rulez/concurrent_binary_tree_checker.go:7-13 | sends the left subtree's values, the node's value, then the right subtree's, nothing for nil |
| TreeChecker.Walk | bootstrap/go_rulez/concurrent_binary_tree_checker.go:17-20 | sends exactly the in-order walk and then closes the channel |
| TreeChecker.Zeros | bootstrap/go_rulez/concurrent_binary_tree_checker.go:26 | ten zeros |
| TreeChecker.Gather | bootstrap/go_rulez/concurrent_binary_tree_checker.go:29-47 | whatever the interleaving, each list ends as ten zeros followed by that channel's values in order |
| TreeChecker.CompareContents | bootstrap/go_rulez/concurrent_binary_tree_checker.go:48-53 | true exactly when the first list is a prefix of the second, an index panic exactly when the second is a proper prefix of the first, false at a mismatch |
| TreeChecker.Same | bootstrap/go_rulez/concurrent_binary_tree_checker.go:24-54 | for every interleaving: true exactly when t1's walk is a prefix of t2's, a panic exactly when t2's walk is a proper prefix of t1's, false otherwise; equal walks give true |
| TreeChecker.SameMisjudgesPrefix | bootstrap/go_rulez/concurrent_binary_tree_checker.go:48-53 | an empty tree against a one-node tree gives true, and the reverse call panics |
| TreeChecker.CompareContentsFixed | bootstrap/go_rulez/concurrent_binary_tree_checker.go:48-53 | true exactly when the two lists are equal |
| TreeChecker.SameFixed | bootstrap/go_rulez/concurrent_binary_tree_checker.go:22-54 | true exactly when the two trees have the same in-order walk, whatever the interleaving |

## Left out

- Concurrency as such: goroutines, the crawler's `done_chan`, the mutexes, `select` with random choice, `time.Sleep`. Each is modelled by its sequential outcome. The crawler's race between `GetUrl` and `PutUrl`, where two goroutines fetch the same URL, cannot happen in the sequential model.
- Console output: the `fmt.Println`/`Printf` text other than the `String()` methods, including `Crawl`'s "Fetching stats" listing, which is printed from the map that `Crawl` returns here.
- `pic.Show`, `wc.Test`, `tree.New` and `io.Copy` are library calls and are not part of this model. `tree.New` builds a random search tree, so the result that `main` prints for `Same(tree.New(10), tree.New(1))` is not modelled. `SearchTreeWalkSorted` states what such trees share.
- The wrapped reader in `rot13Reader.Read` is replaced by its outcome: the count, the error and the bytes it left in the buffer.
- Unicode: strings are sequences of Dafny `char`s. UTF-8 decoding in `strings.Fields`, and bytes that are not valid UTF-8, are not modelled.
- CoolWhatsMore.SumItVarargs: does not model int64 wrap-around; the sum is unbounded.
- CoolWhatsMore.Adder.Call: does not model int64 wrap-around of `res`.
- CoolWhatsMore.Multiplexer.Call: does not model int64 wrap-around of `res`. The ten rounds of `closures()` stay at most 10! = 3628800.
- CoolWhatsMore.CrazyClosure.Adder: does not model int64 wrap-around.
- CoolWhatsMore.CrazyClosure.Multiplexer: does not model int64 wrap-around.
- GoRulez.SafeCounter.Inc: does not model int64 wrap-around of a count.
- GoRulez.SumTogether: does not model int64 wrap-around of the half sums.
- InitBasics.AddsAgree: does not model int64 wrap-around of `x + y`.
- InitBasics.SwapAndShortenDef: does not model int64 wrap-around of `x + y`. For (MaxInt64, 1) Go gives -2^63 and the model gives 2^63.
- GoInt.GoDiv: does not model the int64 overflow of `MinInt64 / -1`. The only division in the source, at init.go:274, divides by 9.
- InitBasics.Split: does not model int64 wrap-around of `sum * 4`, which Go reaches for sums beyond 2^61 in size.
- Hmm.ForInit: does not model int64 wrap-around. For n > 2^62 the Go doubling loops wrap to negative numbers and then to 0, and never end. The first loop's sum also wraps for large n.
- Floating point, complex numbers, file I/O, regular expressions, HTTP serving, time, panic/recover and the type-switch demos.

## Findings

| source | as written | input that shows it | evidently intended | confidence | as-written member | corrected member |
|---|---|---|---|---|---|---|
| bootstrap/killin_it/killin_it.go:640 | upper-case letters rotate only when `charArray[i] < 'Z'` | 'Z' is left as 'Z', and 'M' rotates to 'Z', so deciphering twice turns "M" into "Z" | `<= 'Z'`, as for lower case, so that 'Z' becomes 'M' and the cipher undoes itself | not executed | KillinIt.Rot13ByteNotInvolutive | KillinIt.Rot13FixedInvolution |
| bootstrap/go_rulez/concurrent_binary_tree_checker.go:48-53 | the loop runs over `t1_contents` only and indexes `t2_contents` at the same position | `Same(nil, one-node tree)` returns true; `Same(one-node tree, nil)` indexes past the end of `t2_contents` and panics | true exactly when both trees have the same in-order values, with no panic: compare the lengths first | not executed | TreeChecker.SameMisjudgesPrefix | TreeChecker.SameFixed |

`KillinIt.Rot13Read` keeps the rule as written: the model follows the code
and proves that it agrees with the corrected rule on every byte except 'Z'.
`TreeChecker.Same` likewise models the comparison as written.
