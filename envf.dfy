/**
 * The `.env` loader of src/index.ts.
 *
 * The loader keeps a module-level record `env` and works against the
 * process environment `process.env`. Both are modelled as fields of a
 * Loader object (`env` and `procEnv`), each a map from string keys to
 * string values.
 *
 * Loading reads a text file as `KEY=VALUE` lines. The line front end
 * (split into lines, drop empty lines, drop comments, split each line at
 * '=') is a chain of pure functions here, ending in Rows, and each row
 * becomes an Action (abort, skip or assign) by Classify. The merge loop
 * that writes the rows into `env` is the method Loader.Load, proved
 * against the function Merge; the properties of Merge (which keys are
 * written, which value wins, where an aborting row cuts the load) are
 * proved as lemmas.
 */
module Envf {
  import opened JsString

  datatype Option<T> = None | Some(value: T)

  /** What the file system holds at the path being loaded: nothing
      (`fs.existsSync` is false), a file whose read throws, or a text. */
  datatype FileState = Missing | Unreadable | Present(text: string)

  /** The four outcomes of a load: the merged record; `undefined` after an
      aborting line; the process environment when there is no file; the
      description of a caught exception (its text is not modelled). */
  datatype LoadResult =
    | Loaded(env: map<string, string>)
    | Aborted
    | Fallback(env: map<string, string>)
    | Failed

  // ---------------------------------------------------------------------
  // The line front end: split, filter(Boolean), filter(comment), map(split)

  /** A line whose trimmed text starts with '#': its first character other
      than white space is '#'. */
  predicate IsComment(line: string)
    ensures IsComment(line) <==>
      exists i :: 0 <= i < |line| && line[i] == '#' && AllSpace(line[..i])
  {
    TrimFirst(line, '#');
    var t := Trim(line);
    |t| > 0 && t[0] == '#'
  }

  /** `filter(Boolean)`: the empty strings removed, the rest kept in order. */
  function DropEmpty(lines: seq<string>): (r: seq<string>)
    ensures |r| <= |lines|
    ensures forall l :: l in r <==> l in lines && l != ""
  {
    if lines == [] then []
    else (if lines[0] == "" then [] else [lines[0]]) + DropEmpty(lines[1..])
  }

  /** `filter(line => !line.trim().startsWith("#"))`. */
  function DropComments(lines: seq<string>): (r: seq<string>)
    ensures |r| <= |lines|
    ensures forall l :: l in r <==> l in lines && !IsComment(l)
  {
    if lines == [] then []
    else (if IsComment(lines[0]) then [] else [lines[0]]) + DropComments(lines[1..])
  }

  /** `filter` keeps the order of the lines: it distributes over concatenation. */
  lemma {:induction false} DropEmptyAppend(a: seq<string>, b: seq<string>)
    ensures DropEmpty(a + b) == DropEmpty(a) + DropEmpty(b)
  {
    if a != [] {
      assert (a + b)[0] == a[0] && (a + b)[1..] == a[1..] + b;
      DropEmptyAppend(a[1..], b);
    } else {
      assert a + b == b;
    }
  }

  lemma {:induction false} DropCommentsAppend(a: seq<string>, b: seq<string>)
    ensures DropComments(a + b) == DropComments(a) + DropComments(b)
  {
    if a != [] {
      assert (a + b)[0] == a[0] && (a + b)[1..] == a[1..] + b;
      DropCommentsAppend(a[1..], b);
    } else {
      assert a + b == b;
    }
  }

  /** The lines of a file that reach the merge loop: exactly the lines of
      the text that are neither empty nor comments. A line of white space
      only survives. */
  function Lines(text: string): (r: seq<string>)
    ensures |r| <= |SplitLines(text)|
    ensures forall l :: l in r <==> l in SplitLines(text) && l != "" && !IsComment(l)
  {
    DropComments(DropEmpty(SplitLines(text)))
  }

  /** `map(line => line.split("="))`: each surviving line cut at every '='
      into pieces free of '=', which re-join to the line. */
  function Rows(text: string): (r: seq<seq<string>>)
    ensures |r| == |Lines(text)|
    ensures forall i :: 0 <= i < |r| ==> |r[i]| >= 1 && Join(r[i], "=") == Lines(text)[i]
  {
    var lines := Lines(text);
    var r := seq(|lines|, i requires 0 <= i < |lines| => SplitOn(lines[i], '='));
    assert forall i :: 0 <= i < |r| ==> Join(r[i], "=") == lines[i] by {
      forall i | 0 <= i < |r| ensures Join(r[i], "=") == lines[i] {
        JoinSplitOn(lines[i], '=');
      }
    }
    r
  }

  // ---------------------------------------------------------------------
  // One step of the merge loop

  /** What the loop body does with a row `[key, ...rest]`: an empty (or
      missing) `key` ends the load; a key that trims to "" is skipped;
      otherwise the trimmed key gets the rest, re-joined by '=' and trimmed. */
  datatype Action = Abort | Skip | Assign(key: string, value: string)

  function Classify(row: seq<string>): (r: Action)
    ensures r.Abort? <==> row == [] || row[0] == ""
    ensures r.Skip? <==> row != [] && row[0] != "" && AllSpace(row[0])
    ensures r.Assign? ==> r.key != "" && Trim(r.key) == r.key && Trim(r.value) == r.value
  {
    if row == [] || row[0] == "" then Abort
    else
      var key := Trim(row[0]);
      if key == "" then Skip
      else
        TrimIdempotent(row[0]);
        TrimIdempotent(Join(row[1..], "="));
        Assign(key, Trim(Join(row[1..], "=")))
  }

  /** A line aborts the load exactly when it is empty or starts with '='. */
  lemma LineAborts(line: string)
    ensures Classify(SplitOn(line, '=')).Abort? <==> line == "" || line[0] == '='
  {
    if line != [] && line[0] != '=' {
      assert line == [line[0]] + line[1..];
      SplitOnCons([line[0]], line[1..], '=');
      assert SplitOn(line, '=')[0][0] == line[0];
    }
  }

  /** A line whose first '=' is at p > 0: the key is the trimmed text before
      that '=', the value the trimmed text after it (later '=' kept); a key
      that trims to "" is skipped. */
  lemma LineWithEq(line: string, p: nat)
    requires 0 < p < |line| && line[p] == '=' && '=' !in line[..p]
    ensures Classify(SplitOn(line, '=')) ==
      if Trim(line[..p]) == "" then Skip else Assign(Trim(line[..p]), Trim(line[p + 1..]))
  {
    SplitOnFirst(line, '=', p);
  }

  /** A non-empty line without '=' sets its trimmed text to "", or is
      skipped when it is white space only. */
  lemma LineWithoutEq(line: string)
    requires line != "" && '=' !in line
    ensures Classify(SplitOn(line, '=')) ==
      if Trim(line) == "" then Skip else Assign(Trim(line), "")
  {
    SplitOnNone(line, '=');
    var row := [line];
    assert row[0] == line && row[1..] == [];
    assert Trim(Join(row[1..], "=")) == "";
  }

  // ---------------------------------------------------------------------
  // The merge loop as a function, and its properties

  datatype Merged = Merged(env: map<string, string>, aborted: bool)

  /** The action of each row, in order. */
  function ClassifyAll(rows: seq<seq<string>>): seq<Action>
  {
    seq(|rows|, i requires 0 <= i < |rows| => Classify(rows[i]))
  }

  /** The action of each row of a text, in file order: one per surviving
      line, an Abort exactly for the lines that start with '='. */
  function Actions(text: string): (r: seq<Action>)
    ensures |r| == |Lines(text)|
    ensures forall i :: 0 <= i < |r| ==>
      Lines(text)[i] != "" && (r[i].Abort? <==> Lines(text)[i][0] == '=')
  {
    var rows := Rows(text);
    var lines := Lines(text);
    var r := ClassifyAll(rows);
    assert forall i :: 0 <= i < |r| ==> lines[i] != "" && (r[i].Abort? <==> lines[i][0] == '=') by {
      forall i | 0 <= i < |r| ensures lines[i] != "" && (r[i].Abort? <==> lines[i][0] == '=') {
        assert lines[i] in lines;
        LineAborts(lines[i]);
      }
    }
    r
  }

  /** The actions applied to `env` in order until the first Abort. The
      merged record holds the old keys and the written ones, no others. */
  function Merge(env: map<string, string>, acts: seq<Action>): (r: Merged)
    ensures r.env.Keys == env.Keys + Writes(acts)
    decreases |acts|
  {
    if acts == [] then Merged(env, false)
    else match acts[0]
      case Abort => Merged(env, true)
      case Skip => Merge(env, acts[1..])
      case Assign(k, v) =>
        assert env[k := v].Keys == env.Keys + {k};
        Merge(env[k := v], acts[1..])
  }

  /** One turn of the merge loop, on a row whose key segment is not empty:
      the trimmed key, unless blank, gets the trimmed re-joined rest, and
      the merge carries on with the next row. */
  lemma MergeRowStep(start: map<string, string>, acts: seq<Action>, i: nat,
                     env: map<string, string>, row: seq<string>)
    requires i < |acts| && acts[i] == Classify(row) && row != [] && row[0] != ""
    requires Merge(start, acts) == Merge(env, acts[i..])
    ensures Merge(start, acts) ==
      Merge(if Trim(row[0]) != "" then env[Trim(row[0]) := Trim(Join(row[1..], "="))] else env, acts[i + 1..])
  {
    assert acts[i..][0] == acts[i] && acts[i..][1..] == acts[i + 1..];
  }

  /** A row whose key segment is empty ends the merge with the record as it is. */
  lemma MergeRowAbort(start: map<string, string>, acts: seq<Action>, i: nat,
                      env: map<string, string>, row: seq<string>)
    requires i < |acts| && acts[i] == Classify(row) && (row == [] || row[0] == "")
    requires Merge(start, acts) == Merge(env, acts[i..])
    ensures Merge(start, acts) == Merged(env, true)
  {
    assert acts[i..][0] == acts[i];
  }

  /** The keys assigned before the first Abort. */
  function Writes(acts: seq<Action>): set<string>
  {
    if acts == [] then {}
    else match acts[0]
      case Abort => {}
      case Skip => Writes(acts[1..])
      case Assign(k, _) => {k} + Writes(acts[1..])
  }

  /** Every written key comes from an Assign with no Abort before it. */
  lemma {:induction false} WritesFrom(acts: seq<Action>, k: string)
    requires k in Writes(acts)
    ensures exists j :: 0 <= j < |acts| && acts[j].Assign? && acts[j].key == k &&
                        (forall i :: 0 <= i < j ==> !acts[i].Abort?)
  {
    if acts[0].Assign? && acts[0].key == k {
    } else {
      WritesFrom(acts[1..], k);
      var j :| 0 <= j < |acts[1..]| && acts[1..][j].Assign? && acts[1..][j].key == k &&
               (forall i :: 0 <= i < j ==> !acts[1..][i].Abort?);
      assert forall i :: 1 <= i < j + 1 ==> acts[i] == acts[1..][i - 1];
      assert acts[j + 1] == acts[1..][j];
    }
  }

  /** A key no action writes keeps its old entry, or stays absent. */
  lemma {:induction false} MergeKeeps(env: map<string, string>, acts: seq<Action>, k: string)
    requires k !in Writes(acts)
    ensures k in Merge(env, acts).env <==> k in env
    ensures k in env ==> Merge(env, acts).env[k] == env[k]
    decreases |acts|
  {
    if acts != [] {
      match acts[0]
      case Abort =>
      case Skip => MergeKeeps(env, acts[1..], k);
      case Assign(k', v) => MergeKeeps(env[k' := v], acts[1..], k);
    }
  }

  /** The last Assign of a key, before any Abort, decides its value. */
  lemma {:induction false} MergeLastWrite(env: map<string, string>, acts: seq<Action>, j: nat)
    requires j < |acts| && acts[j].Assign?
    requires forall i :: 0 <= i < j ==> !acts[i].Abort?
    requires acts[j].key !in Writes(acts[j + 1..])
    ensures acts[j].key in Merge(env, acts).env
    ensures Merge(env, acts).env[acts[j].key] == acts[j].value
    decreases |acts|
  {
    var a := acts[j];
    if j == 0 {
      MergeKeeps(env[a.key := a.value], acts[1..], a.key);
    } else {
      var rest := acts[1..];
      assert rest[j - 1] == acts[j] && rest[j..] == acts[j + 1..];
      assert forall i :: 0 <= i < j - 1 ==> rest[i] == acts[i + 1];
      var first := acts[0];
      assert !first.Abort?;
      var env' := if first.Assign? then env[first.key := first.value] else env;
      assert Merge(env, acts) == Merge(env', rest);
      MergeLastWrite(env', rest, j - 1);
    }
  }

  /** The load is aborted exactly when some action is an Abort. */
  lemma {:induction false} MergeAbortedIff(env: map<string, string>, acts: seq<Action>)
    ensures Merge(env, acts).aborted <==> exists j :: 0 <= j < |acts| && acts[j].Abort?
    decreases |acts|
  {
    if acts != [] {
      match acts[0]
      case Abort =>
      case Skip =>
        MergeAbortedIff(env, acts[1..]);
        AbortShift(acts);
      case Assign(k, v) =>
        MergeAbortedIff(env[k := v], acts[1..]);
        AbortShift(acts);
    }
  }

  lemma AbortShift(acts: seq<Action>)
    requires acts != [] && !acts[0].Abort?
    ensures (exists j :: 0 <= j < |acts| && acts[j].Abort?) <==>
            (exists j :: 0 <= j < |acts[1..]| && acts[1..][j].Abort?)
  {
    if exists j :: 0 <= j < |acts| && acts[j].Abort? {
      var j :| 0 <= j < |acts| && acts[j].Abort?;
      assert acts[1..][j - 1] == acts[j];
    }
    if exists j :: 0 <= j < |acts[1..]| && acts[1..][j].Abort? {
      var j :| 0 <= j < |acts[1..]| && acts[1..][j].Abort?;
      assert acts[j + 1] == acts[1..][j];
    }
  }

  /** An Abort keeps every write of the actions before it and ignores
      every action after it. */
  lemma {:induction false} MergeCut(env: map<string, string>, acts: seq<Action>, j: nat)
    requires j < |acts| && acts[j].Abort?
    ensures Merge(env, acts) == Merged(Merge(env, acts[..j]).env, true)
    decreases |acts|
  {
    if j > 0 {
      var rest, head := acts[1..], acts[..j];
      assert rest[j - 1] == acts[j] && rest[..j - 1] == head[1..];
      assert head[0] == acts[0] && head != [];
      var first := acts[0];
      if !first.Abort? {
        var env' := if first.Assign? then env[first.key := first.value] else env;
        assert Merge(env, acts) == Merge(env', rest);
        assert Merge(env, head) == Merge(env', head[1..]);
        MergeCut(env', rest, j - 1);
      }
    }
  }

  /** Two records that agree outside the written keys merge to the same result. */
  lemma {:induction false} MergeAgree(e1: map<string, string>, e2: map<string, string>, acts: seq<Action>)
    requires forall k :: k !in Writes(acts) ==> (k in e1 <==> k in e2) && (k in e1 ==> e1[k] == e2[k])
    ensures Merge(e1, acts) == Merge(e2, acts)
    decreases |acts|
  {
    if acts == [] {
      assert e1 == e2;
    } else {
      match acts[0]
      case Abort => assert e1 == e2;
      case Skip => MergeAgree(e1, e2, acts[1..]);
      case Assign(k, v) => MergeAgree(e1[k := v], e2[k := v], acts[1..]);
    }
  }

  /** Loading the same file a second time changes nothing more. */
  lemma MergeIdempotent(env: map<string, string>, acts: seq<Action>)
    ensures Merge(Merge(env, acts).env, acts) == Merge(env, acts)
  {
    var once := Merge(env, acts).env;
    forall k | k !in Writes(acts)
      ensures (k in once <==> k in env) && (k in once ==> once[k] == env[k])
    {
      MergeKeeps(env, acts, k);
    }
    MergeAgree(once, env, acts);
  }

  // ---------------------------------------------------------------------
  // setKeys

  /** `[...keys].filter(key => !(key in process.env))`: the keys absent from
      the process environment, in order, duplicates kept. */
  function Absent(keys: seq<string>, procEnv: map<string, string>): (r: seq<string>)
    ensures |r| <= |keys|
    ensures forall k :: k in r <==> k in keys && k !in procEnv
  {
    if keys == [] then []
    else
      (if keys[0] in procEnv then [] else [keys[0]]) + Absent(keys[1..], procEnv)
  }

  /** Every occurrence of a key absent from the process environment is
      reported, duplicates included, and no occurrence of a present one. */
  lemma {:induction false} AbsentCount(keys: seq<string>, procEnv: map<string, string>, k: string)
    ensures multiset(Absent(keys, procEnv))[k] == if k in procEnv then 0 else multiset(keys)[k]
  {
    if keys != [] {
      assert keys == [keys[0]] + keys[1..];
      AbsentCount(keys[1..], procEnv, k);
    }
  }

  /** The filter keeps the input order: it distributes over concatenation. */
  lemma {:induction false} AbsentAppend(a: seq<string>, b: seq<string>, procEnv: map<string, string>)
    ensures Absent(a + b, procEnv) == Absent(a, procEnv) + Absent(b, procEnv)
  {
    if a != [] {
      assert (a + b)[0] == a[0] && (a + b)[1..] == a[1..] + b;
      AbsentAppend(a[1..], b, procEnv);
    } else {
      assert a + b == b;
    }
  }

  /** The entries setKeys copies: reported keys with a non-empty value in env. */
  function Copies(keys: seq<string>, env: map<string, string>): map<string, string>
  {
    map k | k in keys && k in env && env[k] != "" :: env[k]
  }

  lemma CopiesSnoc(keys: seq<string>, k: string, env: map<string, string>)
    ensures Copies(keys + [k], env) ==
      if k in env && env[k] != "" then Copies(keys, env)[k := env[k]] else Copies(keys, env)
  {
    var a, b := Copies(keys + [k], env), Copies(keys, env);
    if k in env && env[k] != "" {
      assert a.Keys == b.Keys + {k};
    } else {
      assert a.Keys == b.Keys;
    }
  }

  /** The loop of setKeys as a function: each key in turn is copied from
      `env` when the process value is missing or empty and the record
      value is not. */
  function CopyInto(procEnv: map<string, string>, keys: seq<string>, env: map<string, string>): map<string, string>
    decreases |keys|
  {
    if keys == [] then procEnv
    else
      var k := keys[0];
      var next := if !(k in procEnv && procEnv[k] != "") && k in env && env[k] != ""
                  then procEnv[k := env[k]] else procEnv;
      CopyInto(next, keys[1..], env)
  }

  /** Over keys absent from the process environment, the loop adds exactly
      the copies of the keys with a non-empty record value. */
  lemma {:induction false} CopyIntoAbsent(procEnv: map<string, string>, done: seq<string>,
                                          keys: seq<string>, env: map<string, string>)
    requires forall k :: k in keys ==> k !in procEnv
    ensures CopyInto(procEnv + Copies(done, env), keys, env) == procEnv + Copies(done + keys, env)
    decreases |keys|
  {
    if keys == [] {
      assert done + keys == done;
    } else {
      var k := keys[0];
      var cur := Copies(done, env);
      CopiesSnoc(done, k, env);
      if k in env && env[k] != "" {
        if k in cur {
          assert cur[k := env[k]] == cur;
        } else {
          UnionUpdate(procEnv, cur, k, env[k]);
        }
      }
      assert forall k' :: k' in keys[1..] ==> k' in keys;
      CopyIntoAbsent(procEnv, done + [k], keys[1..], env);
      assert (done + [k]) + keys[1..] == done + keys;
    }
  }

  /** Started from a process environment that holds none of the keys, the
      loop adds exactly their copies. */
  lemma CopyIntoFresh(procEnv: map<string, string>, keys: seq<string>, env: map<string, string>)
    requires forall k :: k in keys ==> k !in procEnv
    ensures CopyInto(procEnv, keys, env) == procEnv + Copies(keys, env)
  {
    assert Copies([], env) == map[];
    assert procEnv + map[] == procEnv;
    CopyIntoAbsent(procEnv, [], keys, env);
    assert [] + keys == keys;
  }

  /** What setKeys does to the process environment: an entry present at
      the call is never modified, and each new entry is a reported key
      copied with its non-empty record value. */
  lemma SetKeysEffect(keys: seq<string>, procEnv: map<string, string>, env: map<string, string>)
    ensures var after := procEnv + Copies(Absent(keys, procEnv), env);
      && (forall k :: k in procEnv ==> k in after && after[k] == procEnv[k])
      && (forall k :: k in after && k !in procEnv ==>
            k in Absent(keys, procEnv) && k in env && env[k] != "" && after[k] == env[k])
  {
  }

  lemma UnionUpdate(a: map<string, string>, b: map<string, string>, k: string, v: string)
    ensures (a + b)[k := v] == a + b[k := v]
  {
  }

  /** The result of `keys()`: "may be env isn't loaded" when the record is
      empty, otherwise the process keys that are also in the record. */
  datatype KeysReport = NotLoaded | Injected(keys: set<string>)

  // ---------------------------------------------------------------------
  // The loader's state and operations

  class Loader {
    /** The module-level record `env`. */
    var env: map<string, string>
    /** The process environment `process.env`. */
    var procEnv: map<string, string>

    /** The record starts empty; the process environment is inherited. */
    constructor (inherited: map<string, string>)
      ensures env == map[] && procEnv == inherited
    {
      env := map[];
      procEnv := inherited;
    }

    /** `pathLoad(file)` and `load(file)`. With no file, the record becomes
        the process environment and is returned. A file that cannot be read
        leaves everything unchanged. Otherwise the rows are merged into the
        record in order, keeping what it held; an aborting row returns
        `undefined` and keeps the writes before it. */
    method Load(file: FileState) returns (res: LoadResult)
      modifies this
      ensures procEnv == old(procEnv)
      ensures file.Missing? ==> env == old(procEnv) && res == Fallback(old(procEnv))
      ensures file.Unreadable? ==> env == old(env) && res == Failed
      ensures file.Present? ==>
        var m := Merge(old(env), Actions(file.text));
        env == m.env && res == (if m.aborted then Aborted else Loaded(m.env))
    {
      match file
      case Missing =>
        env := procEnv;
        return Fallback(env);
      case Unreadable =>
        return Failed;
      case Present(text) =>
        var aborted := MergeRows(Rows(text));
        return if aborted then Aborted else Loaded(env);
    }

    /** The `for` loop over the rows: applies them to the record in order
        and stops at the first row whose key segment is empty, keeping the
        writes before it. */
    method MergeRows(rows: seq<seq<string>>) returns (aborted: bool)
      modifies this`env
      ensures procEnv == old(procEnv)
      ensures Merge(old(env), ClassifyAll(rows)) == Merged(env, aborted)
    {
      ghost var acts := ClassifyAll(rows);
      var i := 0;
      while i < |rows|
        invariant 0 <= i <= |rows| == |acts|
        invariant Merge(old(env), acts) == Merge(env, acts[i..])
      {
        var row := rows[i];
        if row == [] || row[0] == "" {
          MergeRowAbort(old(env), acts, i, env, row);
          return true;
        }
        MergeRowStep(old(env), acts, i, env, row);
        var key, rest := row[0], row[1..];
        var cleanKey := Trim(key);
        var value := Trim(Join(rest, "="));
        if cleanKey != "" {
          env := env[cleanKey := value];
        }
        i := i + 1;
      }
      return false;
    }

    /** `setKey(key)`: copies the record's entry into the process
        environment and returns the key; a key not in the record gives
        `undefined` and changes nothing. */
    method SetKey(key: string) returns (r: Option<string>)
      modifies this`procEnv
      ensures env == old(env)
      ensures key in env ==> r == Some(key) && procEnv == old(procEnv)[key := env[key]]
      ensures key !in env ==> r == None && procEnv == old(procEnv)
    {
      if key !in env {
        return None;
      }
      procEnv := procEnv[key := env[key]];
      return Some(key);
    }

    /** `setKeys(...keys)`: reports the keys absent from the process
        environment at the call, and copies those of them with a non-empty
        value in the record. Present process entries are never touched. */
    method SetKeys(keys: seq<string>) returns (added: seq<string>)
      modifies this`procEnv
      ensures added == Absent(keys, old(procEnv))
      ensures env == old(env)
      ensures procEnv == old(procEnv) + Copies(added, env)
    {
      added := Absent(keys, procEnv);
      CopyKeys(added);
      CopyIntoFresh(old(procEnv), added, env);
    }

    /** The `for` loop of setKeys: copies each key in turn whose process
        value is missing or empty and whose record value is not. */
    method CopyKeys(added: seq<string>)
      modifies this`procEnv
      ensures procEnv == CopyInto(old(procEnv), added, env)
    {
      var i := 0;
      while i < |added|
        invariant 0 <= i <= |added|
        invariant CopyInto(old(procEnv), added, env) == CopyInto(procEnv, added[i..], env)
      {
        var key := added[i];
        assert added[i..][0] == key && added[i..][1..] == added[i + 1..];
        if !(key in procEnv && procEnv[key] != "") && key in env && env[key] != "" {
          procEnv := procEnv[key := env[key]];
        }
        i := i + 1;
      }
    }

    /** `getKey(key)`: a non-empty process value first, then a non-empty
        record value, else `undefined`; an empty value counts as absent. */
    function GetKey(key: string): (r: Option<string>)
      reads this
      ensures r.Some? <==> (key in procEnv && procEnv[key] != "") || (key in env && env[key] != "")
      ensures r.Some? ==> r.value != ""
      ensures key in procEnv && procEnv[key] != "" ==> r == Some(procEnv[key])
      ensures r.Some? && r.value != (if key in procEnv then procEnv[key] else "") ==>
        key in env && r.value == env[key]
    {
      if key in procEnv && procEnv[key] != "" then Some(procEnv[key])
      else if key in env && env[key] != "" then Some(env[key])
      else None
    }

    /** `keys()`: which keys of the record are present in the process environment. */
    function InjectedKeys(): (r: KeysReport)
      reads this
      ensures r == NotLoaded <==> env == map[]
      ensures r.Injected? ==> forall k :: k in r.keys <==> k in procEnv && k in env
    {
      if |env| == 0 then NotLoaded else Injected(procEnv.Keys * env.Keys)
    }
  }
}
