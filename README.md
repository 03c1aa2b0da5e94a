# Elapsed-time helper of the Ollama RAG summarisation script

The repository is a single script (`run.js`) that loads a document, splits it
into chunks, embeds them into an in-memory vector store, retrieves the chunks
most similar to a question and asks a chat model to summarise them. All of
that work is done by LangChain and Ollama library calls. The only logic the
script defines itself is `getTimeBetweenDates`. The script uses it to report
how long each stage took.

`getTimeBetweenDates(startDate, endDate)` takes two millisecond timestamps. It
returns `{ seconds, minutes, hours, days }`. `seconds` is the difference
rounded down to whole seconds. Each coarser unit is the previous one divided
by 60, 60 and 24 and rounded down again. The fields are cumulative totals, not
clock components.

`elapsed_time.dfy` (module `ElapsedTime`) models it:

- timestamps are Dafny `int`s, because `Date.getTime()` returns whole milliseconds;
- `FloorDiv` is `Math.floor(x / d)` for a positive divisor; Dafny's `/` rounds
  toward negative infinity for such divisors, negative dividends included;
- `Elapsed` is the returned record and `GetTimeBetweenDates` the helper.

## Model

| member | source | states |
|---|---|---|
| ElapsedTime.FloorDiv | run.js:17 | `Math.floor(x / d)` for `d > 0` is the unique `q` with `q*d <= x < q*d + d`, so it rounds toward negative infinity |
| ElapsedTime.GetTimeBetweenDates | run.js:16-22 | `seconds*1000 <= end - start < (seconds+1)*1000`; `minutes`, `hours` and `days` are each the previous field rounded down after dividing by 60, 60 and 24 |
| ElapsedTime.FloorDivUnique | run.js:17-20 | the floor bounds determine the value of each `Math.floor` step |
| ElapsedTime.NestedFloorDiv | run.js:17-20 | rounding down after dividing by `a` and then by `b` equals rounding down after dividing by `a*b` |
| ElapsedTime.FloorDivMonotone | run.js:17-20 | a larger dividend never gives a smaller rounded quotient |
| ElapsedTime.FloorDivShrinks | run.js:17-20 | a rounded quotient keeps the dividend's sign and lies between zero and the dividend |
| ElapsedTime.CumulativeTotals | run.js:17-20 | the fields are cumulative totals: `minutes`, `hours` and `days` are the millisecond difference rounded down after dividing by 60000, 3600000 and 86400000 |
| ElapsedTime.CumulativeBounds | run.js:17-20 | each field bounds the millisecond difference in its own unit: e.g. `days*86400000 <= end - start < (days+1)*86400000` |
| ElapsedTime.SignAndOrder | run.js:16-21 | when `end >= start` every field is non-negative and `days <= hours <= minutes <= seconds`; when `end < start` every field is negative and the order is reversed |
| ElapsedTime.MonotoneInEnd | run.js:16-21 | with `start` fixed, a later `end` never gives a smaller value in any field |
| ElapsedTime.AntitoneInStart | run.js:16-21 | with `end` fixed, a later `start` never gives a larger value in any field |
| ElapsedTime.ShiftInvariant | run.js:17 | only the difference matters: shifting both dates by the same amount leaves the result unchanged |
| ElapsedTime.ZeroExactlyBelowOneSecond | run.js:17-21 | all four fields are 0 exactly when `0 <= end - start < 1000` |
| ElapsedTime.SplitInterval | run.js:16-21 | the reports for `[start, mid]` and `[mid, end]` added field by field never exceed the report for `[start, end]`, and fall short of it by at most 1 in each field |
| ElapsedTime.StagesWithinSpan | run.js:16-21 | for stages timed one after another, assuming only that no stage starts before the previous one ended, the stage reports added field by field never exceed the report from the first start to the last end. The script times loading, splitting, indexing, search and summarisation this way: each stage has its own start and end reading, with untimed gaps between stages. A stage whose clock steps back, and so reports negative fields, is allowed |
| ElapsedTime.ForwardStagesBracketed | run.js:16-21 | when, in addition, no stage ends before it starts, every field of the summed stage reports lies between 0 and the same field of the whole-span report |
| ElapsedTime.NinetyMinutes | run.js:16-21 | 90 minutes and 500 ms give `{5400, 90, 1, 0}`: minutes is 90, not 30 |
| ElapsedTime.OneMillisecondBackward | run.js:16-21 | an end 1 ms before the start gives -1 in every field, because rounding is toward negative infinity |

## Left out

- Floating-point arithmetic of JavaScript numbers: the subtraction and the divisions are modelled on unbounded integers. For integer millisecond differences of magnitude below 2^52 (about 142,000 years), rounding the float quotient cannot cross an integer, so `Math.floor` of it equals the integer floor. Larger differences, `NaN` and non-integer inputs are not modelled.
- Document loading with `DocxLoader` / `CheerioWebBaseLoader` (run.js:7-8, 32-35): file and network I/O inside library code.
- Text splitting with `RecursiveCharacterTextSplitter` (run.js:42-48): the chunking algorithm lives in LangChain. The script only supplies `chunkSize: 500` and `chunkOverlap: 0`.
- Embeddings, `MemoryVectorStore.fromDocuments` and `similaritySearch(question, 10)` (run.js:55-63, 92): calls to an external model and library code, with floating-point cosine similarity.
- `ChatOllama`, `PromptTemplate`, `createStuffDocumentsChain` and `chain.invoke` (run.js:69-84, 105-107): calls to a language model over the network, and prompt assembly inside the library.
- The top-level script (run.js:24-112): it reads the clock with `new Date().getTime()`, reassigns `d1`/`d2`, reads `process.env` and writes to the console. The model takes the two timestamps as parameters instead of reading a clock.
