# A verified model of a `.env` loader

This project models the core of a small Node.js `.env` loader, `src/index.ts`.
The loader reads a text file of `KEY=VALUE` lines into a module-level record
`env` and can copy entries of that record into the process environment
`process.env`. The Dafny model has three modules:

- `JsString` (jsstring.dfy) models the JavaScript built-ins the loader relies on:
  - `split(/\r?\n/)` as `SplitLines`;
  - `split("=")` as `SplitOn`;
  - `join` as `Join`;
  - `trim` as `Trim`.

  It proves the round trips between splitting and joining, for line breaks that mix "\n" and "\r\n" as well as for `=`. It also proves that trimming is fully characterised by its meaning.
- `Envf` (envf.dfy) holds the loader itself.
  - The line front end (split, drop empty lines, drop comments, split at `=`) is a chain of functions. It ends in `Rows`, and each row becomes an `Action` (abort, skip or assign) through `Classify`.
  - The merge of the rows into the record is the function `Merge`, against which the loop is proved. Its properties are lemmas: which keys end up in the record, which value wins, where an aborting row cuts the load, and that a second load of the same file changes nothing.
  - The loader's state is the class `Loader`, with the two maps `env` and `procEnv`:
    - `Load` is the merge loop of `pathLoad` and `load`, proved against `Merge`;
    - `SetKey` and `SetKeys` write the process environment;
    - `GetKey` and `InjectedKeys` only read both maps.
- `EnvfExample` (envf_example.dfy) works through the file `FOO=bar`, `# comment`, an empty line, `BAZ=a=b=c`. It loads the file, reads it back and injects keys from it.

`pathLoad` and `load` run the same body. They differ only in how the path is resolved, which is not modelled, so both are `Loader.Load`. The file system is an input, `FileState`:
- `Missing`: `existsSync` is false;
- `Unreadable`: `readFileSync` throws, and the catch block turns the exception into `Failed`;
- `Present(text)`: the file's text.

A line `=value` aborts the load; it is not skipped (src/index.ts:39-41). Its first `=`-segment is "", and `!key` holds for "", so `undefined` is returned and the writes of the earlier lines stay in the record. `split` never produces zero segments, so the aborting lines are exactly those that start with `=` (`Envf.LineAborts`). A key that is white space only, as in `" =x"`, is skipped.

## Model

| member | source | states |
|---|---|---|
| JsString.SplitLines | src/index.ts:33 | the pieces of the text contain no line feed, and there is at least one piece |
| JsString.JoinSplitLines | src/index.ts:33 | for a text without carriage returns, joining its lines with "\n" gives the text back |
| JsString.SplitLinesJoin | src/index.ts:33 | splitting lines joined by "\r\n", or by "\n" when no line but the last ends in "\r", gives back exactly those lines (the uniform case of `SplitLinesJoinWith`) |
| JsString.LineBreaks | src/index.ts:33 | the breaks a text contains, one fewer than its lines, each "\n" or "\r\n" |
| JsString.JoinWithSplitLines | src/index.ts:33 | any text, with any mix of "\n" and "\r\n" breaks, is its lines joined with its own breaks |
| JsString.SplitLinesJoinWith | src/index.ts:33 | lines free of "\n", joined by any mix of "\n" and "\r\n" where no "\n" follows a line ending in "\r", split back into exactly those lines |
| JsString.SplitLinesNone | src/index.ts:33 | a text without "\n" is one line, so a lone "\r" stays inside its line |
| JsString.Join | src/index.ts:43 | `rest.join("=")`: the joined text starts with the first part |
| JsString.SplitOn | src/index.ts:36 | `split("=")` gives at least one piece, and no piece contains the separator |
| JsString.JoinSplitOn | src/index.ts:36 | re-joining the pieces with the separator gives the string back |
| JsString.SplitOnJoin | src/index.ts:36 | splitting a join of separator-free pieces gives back the pieces |
| JsString.SplitOnFirst | src/index.ts:36 | the first piece is the text before the first separator, and the remaining pieces re-joined are the text after it |
| JsString.SplitOnNone | src/index.ts:36 | a string without the separator is a single piece |
| JsString.Trim | src/index.ts:42-43 | the result is empty exactly when the string is all white space; otherwise it starts and ends with a non-space character |
| JsString.TrimUnique | src/index.ts:42-43 | any slice surrounded only by white space, with non-space ends (or empty), is the trimmed string |
| JsString.TrimNoop | src/index.ts:42-43 | a string with non-space ends is its own trim |
| JsString.TrimFirst | src/index.ts:35 | the trimmed string starts with a given non-space character if and only if that character occurs after white space only |
| JsString.TrimIdempotent | src/index.ts:42-43 | trimming twice gives the same as trimming once |
| Envf.IsComment | src/index.ts:35 | `line.trim().startsWith("#")` holds if and only if the first character that is not white space is '#' |
| Envf.DropEmpty | src/index.ts:34 | `filter(Boolean)` keeps exactly the non-empty lines |
| Envf.DropEmptyAppend | src/index.ts:34 | the empty-line filter keeps line order (it distributes over concatenation) |
| Envf.DropComments | src/index.ts:35 | keeps exactly the lines whose trimmed text does not start with '#' |
| Envf.DropCommentsAppend | src/index.ts:35 | the comment filter keeps line order |
| Envf.Lines | src/index.ts:31-35 | the lines that reach the loop are exactly the lines of the text that are neither empty nor comments |
| Envf.Rows | src/index.ts:36 | one row per surviving line; each row has at least one segment, and its segments re-joined with "=" give the line |
| Envf.Classify | src/index.ts:38-44 | a row aborts if and only if it has no segments or an empty first segment; it is skipped if and only if its first segment is non-empty white space; an assignment has a non-empty key, and key and value are both trimmed |
| Envf.Actions | src/index.ts:31-41 | one action per surviving line; each line is non-empty, and its action aborts if and only if the line starts with '=' |
| Envf.LineAborts | src/index.ts:36-41 | a line aborts the load if and only if it is empty or starts with '=' |
| Envf.LineWithEq | src/index.ts:36-44 | with the first '=' at p > 0, the key is the trimmed text before it and the value the trimmed text after it, with later '=' kept; a key that trims to "" is skipped |
| Envf.LineWithoutEq | src/index.ts:36-44 | a non-empty line without '=' assigns "" to its trimmed text, or is skipped if it is white space only |
| Envf.Merge | src/index.ts:38-45 | after the merge the record holds the old keys plus the written keys, and no others |
| Envf.MergeRowStep | src/index.ts:42-44 | one loop turn on a row with a non-empty key segment: a non-blank trimmed key gets the trimmed re-joined rest, and the merge carries on with the next row |
| Envf.MergeRowAbort | src/index.ts:39-41 | a row with an empty key segment ends the merge as aborted, with the record as it is |
| Envf.WritesFrom | src/index.ts:38-45 | every written key comes from an Assign row with no aborting row before it |
| Envf.MergeKeeps | src/index.ts:38-45 | a key the file does not write keeps its old entry, or stays absent |
| Envf.MergeLastWrite | src/index.ts:38-45 | the last Assign of a key before any abort decides its value, so a later duplicate overwrites an earlier one |
| Envf.MergeAbortedIff | src/index.ts:38-41 | the load is aborted if and only if some row aborts |
| Envf.MergeCut | src/index.ts:38-45 | an aborting row keeps every write before it and ignores every row after it |
| Envf.MergeAgree | src/index.ts:38-45 | two records that agree outside the written keys merge to the same result |
| Envf.MergeIdempotent | src/index.ts:38-45 | loading the same file into the merged record again changes nothing |
| Envf.Loader.constructor | src/index.ts:21 | the record starts empty and the process environment is the inherited one |
| Envf.Loader.Load | src/index.ts:23-54 | a missing file makes the record the process environment and returns it; an unreadable file changes nothing; otherwise the record becomes `Merge` of the old record with the file's rows, and the result is `Aborted` exactly when a row aborts; the process environment is untouched. `load` (src/index.ts:56-87) runs the same body |
| Envf.Loader.MergeRows | src/index.ts:38-45 | the loop leaves the record that `Merge` of the old record and the classified rows gives, and reports abort as `Merge` does; the process environment is untouched |
| Envf.Loader.SetKey | src/index.ts:89-100 | a key in the record is copied into the process environment and returned, and nothing else changes; otherwise the result is `undefined` and both maps are unchanged |
| Envf.Absent | src/index.ts:105 | the reported keys are exactly the input keys absent from the process environment |
| Envf.AbsentCount | src/index.ts:105 | every occurrence of an absent key is reported, duplicates kept, and no occurrence of a present one |
| Envf.AbsentAppend | src/index.ts:105 | the reported keys keep the input order |
| Envf.Loader.SetKeys | src/index.ts:103-117 | reports the keys absent from the process environment at the call; the new process environment is the old one plus a copy of each reported key with a non-empty record value; the record is unchanged |
| Envf.Loader.CopyKeys | src/index.ts:106-110 | the loop leaves the process environment that `CopyInto` gives: each key not yet set to a non-empty value gets its non-empty record value |
| Envf.CopyIntoAbsent | src/index.ts:106-110 | for keys absent from the process environment, the copy loop adds exactly the copies of those keys |
| Envf.CopyIntoFresh | src/index.ts:105-110 | the copy loop over the reported keys gives the old process environment plus the copies of the reported keys |
| Envf.SetKeysEffect | src/index.ts:105-110 | after setKeys, entries present at the call are unmodified, and each new entry is a reported key with its non-empty record value |
| Envf.Loader.InjectedKeys | src/index.ts:119-130 | "not loaded" exactly when the record is empty; otherwise exactly the keys present in both maps |
| Envf.Loader.GetKey | src/index.ts:132-140 | a value is found if and only if one of the two maps holds a non-empty value; a non-empty process value wins; any other answer is the record's value; "" counts as absent |
| EnvfExample.ExampleLines | src/index.ts:31-35 | in the example file, the comment line and the empty line are dropped |
| EnvfExample.ExampleBaz | src/index.ts:42-43 | `BAZ=a=b=c` assigns "a=b=c" to `BAZ` |
| EnvfExample.ExampleMerge | src/index.ts:31-45 | the example file's rows merge into an empty record as `{FOO: "bar", BAZ: "a=b=c"}`, without abort |
| EnvfExample.Example | src/index.ts:23-100 | loading the example gives `{FOO: "bar", BAZ: "a=b=c"}`; `getKey` reads both values back; `setKey("FOO")` returns "FOO" and `setKey("MISSING")` returns `undefined` |

## Left out

- `envPath` (src/index.ts:7-19) is not modelled. Path resolution goes through Node's `path` and `url` modules and the working directory, so the file is identified only by its state.
- `fs.existsSync` and `readFileSync` are not executed. What they would observe is the parameter `FileState`.
- Console output (`console.log`, `console.warn`, `console.error`) is left out, because it does not affect any state or result.
- Exception texts are left out. Every catch block that turns an exception into `${err}` is modelled only where an exception can arise from the modelled inputs: a failing read in `Load` gives `Failed`. The other catch blocks guard operations on plain maps, which cannot throw here.
- The import-time side effect `console.log(index.load(".env.eg"))` (src/index.ts:146) is left out, because it is a call with a fixed path, not an operation.
- Envf.Loader.Load: in the missing-file branch, `env = process.env` makes both names one object, so later writes through either reach both. The model copies the map value at that moment and does not model the aliasing that follows.
- Envf.Loader.Load: the success branch returns the live `env` object (src/index.ts:49, 82), so a record returned by one load changes under later loads and `setKey` calls. `Loaded(m.env)` is a snapshot of the record at the return.
- Envf.Loader.Load: a line `__proto__=x` goes through the prototype setter of `env[cleanKey] = value` (src/index.ts:44) and creates no entry in the source. The model assigns the key "__proto__" like any other key.
- Envf.Loader.SetKey: `key in env` also sees inherited properties such as `"toString"`. The model tests only the record's own keys.
- Envf.Loader.SetKeys: `key in process.env` (src/index.ts:105) also sees inherited names such as `"toString"`, so the source does not report them. The model reports every key that is not an own key of the process environment.
- Envf.Loader.InjectedKeys: `key in env` (src/index.ts:123) also sees inherited names. The model intersects the own keys of both maps only.
- Envf.Loader.GetKey: `process.env[key]` and `env[key]` (src/index.ts:133-137) read inherited properties too, so `getKey("toString")` returns a function in the source. In the model it returns `None`.
- Envf.Loader.GetKey: JavaScript truthiness on strings is modelled as "non-empty". Other falsy values cannot occur in string maps.
- Envf.Loader.SetKeys: the result is the list of reported keys, not the string `Added keys ${result}`.
- Envf.Loader.InjectedKeys: returns the set of injected keys, not the formatted string `Keys injected : ...`. It also leaves out the order in which `Object.keys(process.env)` lists them.
- JsString.Trim: strings are sequences of Unicode scalar values, not UTF-16 code units. Trimming uses the fixed ECMAScript white-space and line-terminator set.
