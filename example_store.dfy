/**
 * The example store of the quest generator: the built-in (prompt, quest)
 * pairs, extended once at start-up with the records decoded from the first
 * lines of the optional data file, skipping lines that do not decode and
 * records already present.
 */
module ExampleStore {
  import opened Wrappers

  /** One stored (prompt, quest) pair. */
  datatype Example = Example(prompt: string, quest: string)

  /** The three pairs the store always starts from, in this order. */
  const Builtins: seq<Example> := [
    Example("dragon", "Slay the ancient dragon Vrothgar, who guards the cursed hoard in the Emberfall Peaks."),
    Example("forest", "Venture into the Whispering Woods to find the lost druid stone before the moon wanes."),
    Example("necromancer", "Hunt down the necromancer Malgros, whose undead minions plague the Weeping Vale.")
  ]

  /** Only this many lines of the data file are examined. */
  const MaxFileLines: nat := 50

  /**
   * The data file as the loader sees it: `None` when it is missing or cannot be
   * read, otherwise one entry per line, `None` for a line that does not decode.
   */
  type DataFile = Option<seq<Option<Example>>>

  /** No example appears twice. */
  predicate Distinct(examples: seq<Example>) {
    forall i, j :: 0 <= i < j < |examples| ==> examples[i] != examples[j]
  }

  /** The lines of the file that are examined: the first `MaxFileLines`. */
  function Examined(lines: seq<Option<Example>>): (r: seq<Option<Example>>)
    ensures |r| <= MaxFileLines && |r| <= |lines| && r == lines[..|r|]
    ensures |lines| >= MaxFileLines ==> |r| == MaxFileLines
    ensures |lines| < MaxFileLines ==> r == lines
  {
    if |lines| <= MaxFileLines then lines else lines[..MaxFileLines]
  }

  /** One step of the loading loop: append a decoded record unless it is already stored. */
  function AddIfNew(store: seq<Example>, line: Option<Example>): seq<Example> {
    match line
    case Some(e) => if e in store then store else store + [e]
    case None => store
  }

  /** The loading loop over `lines`, starting from `store`. */
  function AppendNew(store: seq<Example>, lines: seq<Option<Example>>): seq<Example>
    decreases |lines|
  {
    if lines == [] then store else AppendNew(AddIfNew(store, lines[0]), lines[1..])
  }

  /** The store after start-up. */
  function Loaded(file: DataFile): seq<Example> {
    match file
    case None => Builtins
    case Some(lines) => AppendNew(Builtins, Examined(lines))
  }

  /** Loads the store: the built-in pairs, then each new record among the examined lines, in file order. */
  method LoadExamples(file: DataFile) returns (examples: seq<Example>)
    ensures examples == Loaded(file)
  {
    examples := Builtins;
    if file.None? {
      return;
    }
    var lines := Examined(file.value);
    for i := 0 to |lines|
      invariant AppendNew(examples, lines[i..]) == Loaded(file)
    {
      assert lines[i..][1..] == lines[i + 1..];
      match lines[i] {
        case Some(e) =>
          if e !in examples {
            examples := examples + [e];
          }
        case None =>
      }
    }
    assert lines[|lines|..] == [];
  }

  /** Loading only appends: what was stored stays, at the same positions, and at most one entry per line is added. */
  lemma {:induction false} AppendNewExtends(store: seq<Example>, lines: seq<Option<Example>>)
    ensures |store| <= |AppendNew(store, lines)| <= |store| + |lines|
    ensures AppendNew(store, lines)[..|store|] == store
    decreases |lines|
  {
    if lines != [] {
      var next := AddIfNew(store, lines[0]);
      AppendNewExtends(next, lines[1..]);
      assert next[..|store|] == store;
      assert AppendNew(store, lines)[..|store|] == AppendNew(next, lines[1..])[..|next|][..|store|];
    }
  }

  /** Loading never introduces a duplicate. */
  lemma {:induction false} AppendNewDistinct(store: seq<Example>, lines: seq<Option<Example>>)
    requires Distinct(store)
    ensures Distinct(AppendNew(store, lines))
    decreases |lines|
  {
    if lines != [] {
      AppendNewDistinct(AddIfNew(store, lines[0]), lines[1..]);
    }
  }

  /** An example is stored after loading exactly when it was stored before or some line decoded to it. */
  lemma {:induction false} AppendNewMembers(store: seq<Example>, lines: seq<Option<Example>>, e: Example)
    ensures e in AppendNew(store, lines) <==> e in store || Some(e) in lines
    decreases |lines|
  {
    if lines != [] {
      var next := AddIfNew(store, lines[0]);
      AppendNewMembers(next, lines[1..], e);
      assert e in next <==> e in store || lines[0] == Some(e);
      assert lines == [lines[0]] + lines[1..];
    }
  }

  /** The three built-in pairs are distinct. */
  lemma BuiltinsDistinct()
    ensures Distinct(Builtins)
  {
    assert Builtins[0].prompt != Builtins[1].prompt by {
      assert Builtins[0].prompt[0] != Builtins[1].prompt[0];
    }
    assert Builtins[0].prompt != Builtins[2].prompt by {
      assert Builtins[0].prompt[0] != Builtins[2].prompt[0];
    }
    assert Builtins[1].prompt != Builtins[2].prompt by {
      assert Builtins[1].prompt[0] != Builtins[2].prompt[0];
    }
  }

  /**
   * After start-up the store begins with the three built-in pairs in order,
   * holds no duplicate, holds at most one entry per examined line beyond them,
   * and holds a record exactly when it is built in or one of the first
   * `MaxFileLines` lines decoded to it.
   */
  lemma LoadedStore(file: DataFile, e: Example)
    ensures |Builtins| <= |Loaded(file)| <= |Builtins| + MaxFileLines
    ensures Loaded(file)[..|Builtins|] == Builtins
    ensures Distinct(Loaded(file))
    ensures e in Loaded(file) <==>
      e in Builtins || (file.Some? && Some(e) in Examined(file.value))
  {
    BuiltinsDistinct();
    match file
    case None =>
    case Some(lines) =>
      AppendNewExtends(Builtins, Examined(lines));
      AppendNewDistinct(Builtins, Examined(lines));
      AppendNewMembers(Builtins, Examined(lines), e);
  }
}
