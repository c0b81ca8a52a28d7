/**
 * A worked example of the loader: the file
 *
 *     FOO=bar
 *     # comment
 *
 *     BAZ=a=b=c
 *
 * loaded into an empty record with an empty process environment, read back
 * with getKey, then injected with setKey. Each step is a small lemma so
 * that the verifier never unfolds the whole text at once.
 */
module EnvfExample {
  import opened JsString
  import opened Envf

  /** The example file, written line by line. */
  function ExampleText(): string {
    "FOO=bar" + "\n" + "# comment" + "\n" + "" + "\n" + "BAZ=a=b=c"
  }

  /** The record the example file loads into an empty record. */
  function ExampleEnv(): map<string, string> {
    map["FOO" := "bar", "BAZ" := "a=b=c"]
  }

  lemma JoinFour(a: string, b: string, c: string, d: string, sep: string)
    ensures Join([a, b, c, d], sep) == a + sep + b + sep + c + sep + d
  {
    var p := [a, b, c, d];
    assert p[1..] == [b, c, d] && p[1..][1..] == [c, d] && p[1..][1..][1..] == [d];
    assert Join([c, d], sep) == c + sep + d;
    assert Join([b, c, d], sep) == b + sep + (c + sep + d);
    assert Join(p, sep) == a + sep + (b + sep + (c + sep + d));
  }

  lemma ExampleSplitLines()
    ensures SplitLines(ExampleText()) == ["FOO=bar", "# comment", "", "BAZ=a=b=c"]
  {
    JoinFour("FOO=bar", "# comment", "", "BAZ=a=b=c", "\n");
    SplitLinesJoin(["FOO=bar", "# comment", "", "BAZ=a=b=c"], "\n");
  }

  lemma CommentLine()
    ensures IsComment("# comment")
  {
    TrimNoop("# comment");
  }

  lemma FooNotComment()
    ensures !IsComment("FOO=bar")
  {
    TrimNoop("FOO=bar");
  }

  lemma BazNotComment()
    ensures !IsComment("BAZ=a=b=c")
  {
    TrimNoop("BAZ=a=b=c");
  }

  lemma FooSplit()
    ensures SplitOn("FOO=bar", '=') == ["FOO", "bar"]
  {
    assert Join(["FOO", "bar"], "=") == "FOO=bar";
    SplitOnJoin(["FOO", "bar"], '=');
  }

  lemma BazSplit()
    ensures SplitOn("BAZ=a=b=c", '=') == ["BAZ", "a", "b", "c"]
  {
    assert Join(["BAZ", "a", "b", "c"], "=") == "BAZ=a=b=c";
    SplitOnJoin(["BAZ", "a", "b", "c"], '=');
  }

  lemma DropEmptyThird(a: string, b: string, c: string, d: string)
    requires a != "" && b != "" && c == "" && d != ""
    ensures DropEmpty([a, b, c, d]) == [a, b, d]
  {
    var p := [a, b, c, d];
    assert p[1..] == [b, c, d] && p[1..][1..] == [c, d] && p[1..][1..][1..] == [d];
    assert DropEmpty([d]) == [d];
    assert DropEmpty([c, d]) == [d];
    assert DropEmpty([b, c, d]) == [b, d];
  }

  lemma DropCommentSecond(a: string, b: string, c: string)
    requires !IsComment(a) && IsComment(b) && !IsComment(c)
    ensures DropComments([a, b, c]) == [a, c]
  {
    var p := [a, b, c];
    assert p[1..] == [b, c] && p[1..][1..] == [c];
    assert DropComments([c]) == [c];
    assert DropComments([b, c]) == [c];
  }

  lemma ExampleDropEmpty()
    ensures DropEmpty(["FOO=bar", "# comment", "", "BAZ=a=b=c"]) == ["FOO=bar", "# comment", "BAZ=a=b=c"]
  {
    DropEmptyThird("FOO=bar", "# comment", "", "BAZ=a=b=c");
  }

  lemma ExampleDropComments()
    ensures DropComments(["FOO=bar", "# comment", "BAZ=a=b=c"]) == ["FOO=bar", "BAZ=a=b=c"]
  {
    CommentLine();
    FooNotComment();
    BazNotComment();
    DropCommentSecond("FOO=bar", "# comment", "BAZ=a=b=c");
  }

  /** The comment line and the empty line are dropped. */
  lemma ExampleLines()
    ensures Lines(ExampleText()) == ["FOO=bar", "BAZ=a=b=c"]
  {
    ExampleSplitLines();
    ExampleDropEmpty();
    ExampleDropComments();
  }

  lemma RowsOfTwo(text: string, l0: string, l1: string, r0: seq<string>, r1: seq<string>)
    requires Lines(text) == [l0, l1] && SplitOn(l0, '=') == r0 && SplitOn(l1, '=') == r1
    ensures Rows(text) == [r0, r1]
  {
  }

  lemma ExampleRows()
    ensures Rows(ExampleText()) == [["FOO", "bar"], ["BAZ", "a", "b", "c"]]
  {
    ExampleLines();
    FooSplit();
    BazSplit();
    RowsOfTwo(ExampleText(), "FOO=bar", "BAZ=a=b=c", ["FOO", "bar"], ["BAZ", "a", "b", "c"]);
  }

  lemma ClassifyKeyValue(row: seq<string>, k: string, v: string)
    requires |row| >= 1 && row[0] == k && k != "" && Trim(k) == k
    requires Trim(Join(row[1..], "=")) == v
    ensures Classify(row) == Assign(k, v)
  {
  }

  lemma FooKey()
    ensures Trim("FOO") == "FOO"
  {
    TrimNoop("FOO");
  }

  lemma BazKey()
    ensures Trim("BAZ") == "BAZ"
  {
    TrimNoop("BAZ");
  }

  lemma FooValue()
    ensures Trim(Join(["FOO", "bar"][1..], "=")) == "bar"
  {
    assert ["FOO", "bar"][1..] == ["bar"];
    TrimNoop("bar");
  }

  lemma BazValue()
    ensures Trim(Join(["BAZ", "a", "b", "c"][1..], "=")) == "a=b=c"
  {
    assert ["BAZ", "a", "b", "c"][1..] == ["a", "b", "c"];
    assert Join(["a", "b", "c"], "=") == "a=b=c";
    TrimNoop("a=b=c");
  }

  lemma ExampleFoo()
    ensures Classify(["FOO", "bar"]) == Assign("FOO", "bar")
  {
    FooKey();
    FooValue();
    ClassifyKeyValue(["FOO", "bar"], "FOO", "bar");
  }

  /** The value keeps its later '=' characters. */
  lemma ExampleBaz()
    ensures Classify(["BAZ", "a", "b", "c"]) == Assign("BAZ", "a=b=c")
  {
    BazKey();
    BazValue();
    ClassifyKeyValue(["BAZ", "a", "b", "c"], "BAZ", "a=b=c");
  }

  lemma ClassifyTwo(r0: seq<string>, r1: seq<string>)
    ensures ClassifyAll([r0, r1]) == [Classify(r0), Classify(r1)]
  {
  }

  lemma ActionsOfTwoRows(text: string, r0: seq<string>, r1: seq<string>, a0: Action, a1: Action)
    requires Rows(text) == [r0, r1] && Classify(r0) == a0 && Classify(r1) == a1
    ensures Actions(text) == [a0, a1]
  {
    ClassifyTwo(r0, r1);
  }

  lemma ExampleActions()
    ensures Actions(ExampleText()) == [Assign("FOO", "bar"), Assign("BAZ", "a=b=c")]
  {
    ExampleRows();
    ExampleFoo();
    ExampleBaz();
    ActionsOfTwoRows(ExampleText(), ["FOO", "bar"], ["BAZ", "a", "b", "c"],
                     Assign("FOO", "bar"), Assign("BAZ", "a=b=c"));
  }

  lemma MergeTwo(env: map<string, string>, k1: string, v1: string, k2: string, v2: string)
    ensures Merge(env, [Assign(k1, v1), Assign(k2, v2)]) == Merged(env[k1 := v1][k2 := v2], false)
  {
    var acts := [Assign(k1, v1), Assign(k2, v2)];
    assert acts[1..] == [Assign(k2, v2)] && acts[1..][1..] == [];
    assert Merge(env, acts) == Merge(env[k1 := v1], acts[1..]);
    assert Merge(env[k1 := v1], acts[1..]) == Merge(env[k1 := v1][k2 := v2], []);
  }

  lemma ExampleMerge()
    ensures Merge(map[], Actions(ExampleText())) == Merged(ExampleEnv(), false)
  {
    ExampleActions();
    MergeTwo(map[], "FOO", "bar", "BAZ", "a=b=c");
  }

  /** Loading the example file into an empty record with an empty process
      environment. */
  method ExampleLoad() returns (loader: Loader, res: LoadResult)
    ensures fresh(loader)
    ensures res == Loaded(ExampleEnv())
    ensures loader.env == ExampleEnv() && loader.procEnv == map[]
  {
    loader := new Loader(map[]);
    ExampleMerge();
    res := loader.Load(Present(ExampleText()));
  }

  /** Reading both keys back, then injecting one present and one missing key. */
  method ExampleInject(loader: Loader) returns (foo: Option<string>, baz: Option<string>,
                                                setFoo: Option<string>, setMissing: Option<string>)
    requires loader.env == ExampleEnv() && loader.procEnv == map[]
    modifies loader`procEnv
    ensures foo == Some("bar") && baz == Some("a=b=c")
    ensures setFoo == Some("FOO") && setMissing == None
    ensures loader.env == ExampleEnv() && loader.procEnv == map["FOO" := "bar"]
  {
    foo := loader.GetKey("FOO");
    baz := loader.GetKey("BAZ");
    setFoo := loader.SetKey("FOO");
    setMissing := loader.SetKey("MISSING");
  }

  /** Loading the example file, reading both keys, and injecting one
      present and one missing key. */
  method Example() returns (res: LoadResult, foo: Option<string>, baz: Option<string>,
                            setFoo: Option<string>, setMissing: Option<string>)
    ensures res == Loaded(map["FOO" := "bar", "BAZ" := "a=b=c"])
    ensures foo == Some("bar") && baz == Some("a=b=c")
    ensures setFoo == Some("FOO") && setMissing == None
  {
    var loader;
    loader, res := ExampleLoad();
    foo, baz, setFoo, setMissing := ExampleInject(loader);
  }
}
