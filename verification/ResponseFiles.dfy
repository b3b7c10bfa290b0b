/** Response files: arguments read from files that may include further files. */
module ResponseFiles {
  import opened Json
  import opened Collections

  const MAXIMUM_DEPTH := 8
  const MAXIMUM_ARGUMENTS := 10000

  /** The file system as the expander asks it: a path is read relative to a
      directory; a canonical path names one file. */
  datatype Files = Files(
    present: (string, string) -> bool,
    canonical: (string, string) -> Option<string>,
    parse: string -> Option<seq<string>>,
    directory: string -> string)

  // ---------- the flattening ----------

  /** What the front of an argument list is: a plain argument, an include, or a
      flag without its path; with the number of arguments it takes. */
  datatype Item = Plain(text: string, used: nat) | Include(path: string, used: nat) | Incomplete

  function Front(files: Files, input: seq<string>, base: string): (item: Item)
    requires input != []
    ensures !item.Incomplete? ==> 0 < item.used <= |input|
  {
    var argument := input[0];
    if argument == "--response-file" || argument == "--config" then
      if |input| == 1 then Incomplete
      else if input[1] == "" then Plain(argument, 2)
      else Include(input[1], 2)
    else if |argument| > 1 && argument[0] == '@' && files.present(base, argument[1..]) then Include(argument[1..], 1)
    else Plain(argument, 1)
  }

  function Join(front: seq<string>, rest: Option<seq<string>>): Option<seq<string>> {
    match rest
    case None => None
    case Some(arguments) => Some(front + arguments)
  }

  /** All includes replaced by what they hold, `chain` being the files open
      around the input: no file may be open twice, no chain longer than the
      maximum depth, and every file must exist and parse. */
  function Flatten(files: Files, input: seq<string>, base: string, chain: seq<string>): Option<seq<string>>
    decreases MAXIMUM_DEPTH + 1 - |chain|, |input|
  {
    if |chain| > MAXIMUM_DEPTH then None
    else if input == [] then Some([])
    else
      match Front(files, input, base)
      case Incomplete => None
      case Plain(text, used) => Join([text], Flatten(files, input[used..], base, chain))
      case Include(path, used) =>
        match Included(files, path, base, chain)
        case None => None
        case Some(nested) => Join(nested, Flatten(files, input[used..], base, chain))
  }

  /** The arguments one include stands for. */
  function Included(files: Files, path: string, base: string, chain: seq<string>): Option<seq<string>>
    requires |chain| <= MAXIMUM_DEPTH
    decreases MAXIMUM_DEPTH + 1 - |chain|, 0
  {
    match files.canonical(base, path)
    case None => None
    case Some(file) =>
      if file in chain || files.parse(file).None? then None
      else Flatten(files, files.parse(file).value, files.directory(file), chain + [file])
  }

  // ---------- the expander ----------

  class Expander {
    const files: Files
    var activeFiles: set<string>

    constructor (files: Files)
      ensures this.files == files && activeFiles == {}
    {
      this.files := files;
      activeFiles := {};
    }

    /** Succeeds exactly when the flattening exists and is short enough, and
        then returns it with the active files as they were. */
    method ExpandArguments(input: seq<string>, base: string, depth: nat, ghost chain: seq<string>)
      returns (result: Option<seq<string>>)
      requires depth == |chain| && activeFiles == (set file | file in chain)
      modifies this
      ensures result.Some? <==>
              Flatten(files, input, base, chain).Some? && |Flatten(files, input, base, chain).value| <= 10_000
      ensures result.Some? ==> result == Flatten(files, input, base, chain) && activeFiles == old(activeFiles)
      decreases MAXIMUM_DEPTH + 1 - depth
    {
      if depth > MAXIMUM_DEPTH { return None; }
      var expanded: seq<string> := [];
      var index := 0;
      assert input[0..] == input;
      assert forall arguments: seq<string> :: [] + arguments == arguments;
      while index < |input|
        invariant 0 <= index <= |input| && |expanded| <= MAXIMUM_ARGUMENTS
        invariant activeFiles == old(activeFiles)
        invariant Flatten(files, input, base, chain) == Join(expanded, Flatten(files, input[index..], base, chain))
      {
        ghost var rest := input[index..];
        var argument, responsePath, used := input[index], "", 1;
        if argument == "--response-file" || argument == "--config" {
          if index + 1 >= |input| { return None; }
          responsePath, used := input[index + 1], 2;
        } else if |argument| > 1 && argument[0] == '@' && files.present(base, argument[1..]) {
          responsePath := argument[1..];
        }
        assert rest[used..] == input[index + used..];
        ghost var before := expanded;
        if responsePath == "" {
          assert Front(files, rest, base) == Plain(argument, used);
          expanded := expanded + [argument];
          JoinTwice(before, [argument], Flatten(files, input[index + used..], base, chain));
        } else {
          assert Front(files, rest, base) == Include(responsePath, used);
          var nested := ExpandInclude(responsePath, base, depth, chain);
          if nested.None? { return None; }
          expanded := expanded + nested.value;
          JoinTwice(before, nested.value, Flatten(files, input[index + used..], base, chain));
        }
        index := index + used;
        if |expanded| > MAXIMUM_ARGUMENTS { return None; }
      }
      assert input[index..] == [] && expanded + [] == expanded;
      return Some(expanded);
    }

    method ExpandInclude(responsePath: string, base: string, depth: nat, ghost chain: seq<string>)
      returns (nested: Option<seq<string>>)
      requires depth == |chain| <= MAXIMUM_DEPTH && activeFiles == (set file | file in chain)
      modifies this
      ensures nested.Some? <==>
              Included(files, responsePath, base, chain).Some? &&
              |Included(files, responsePath, base, chain).value| <= 10_000
      ensures nested.Some? ==> nested == Included(files, responsePath, base, chain) && activeFiles == old(activeFiles)
      decreases MAXIMUM_DEPTH + 1 - depth, 0
    {
      var absolutePath := files.canonical(base, responsePath);
      if absolutePath.None? { return None; }
      var file := absolutePath.value;
      if file in activeFiles { return None; }
      activeFiles := activeFiles + {file};
      var nestedInput := files.parse(file);
      if nestedInput.None? { return None; }
      nested := ExpandArguments(nestedInput.value, files.directory(file), depth + 1, chain + [file]);
      activeFiles := activeFiles - {file};
    }
  }

  lemma JoinTwice(one: seq<string>, two: seq<string>, rest: Option<seq<string>>)
    ensures Join(one, Join(two, rest)) == Join(one + two, rest)
  {
    if rest.Some? { assert one + (two + rest.value) == (one + two) + rest.value; }
  }

  // ---------- laws of flattening ----------

  /** What one include stands for: what its file holds, read from that file's
      own directory; nothing for a file that is missing, open already, or does
      not parse, or below eight others. */
  ghost predicate StandsFor(files: Files, path: string, base: string, chain: seq<string>, nested: Option<seq<string>>) {
    match files.canonical(base, path)
    case None => nested == None
    case Some(file) =>
      if file in chain || files.parse(file).None? || |chain| == 8 then nested == None
      else nested == Flatten(files, files.parse(file).value, files.directory(file), chain + [file])
  }

  /** A flag needs a path, and the path is replaced by what its file stands for. */
  lemma FlagExact(files: Files, flag: string, path: string, rest: seq<string>, base: string, chain: seq<string>,
                  nested: Option<seq<string>>)
    requires |chain| <= 8 && (flag == "--response-file" || flag == "--config") && path != ""
    requires StandsFor(files, path, base, chain, nested)
    ensures Flatten(files, [flag], base, chain) == None
    ensures Flatten(files, [flag, path] + rest, base, chain) ==
            if nested.None? then None else Join(nested.value, Flatten(files, rest, base, chain))
  {
    var input := [flag, path] + rest;
    assert Front(files, [flag], base) == Incomplete;
    assert Front(files, input, base) == Include(path, 2) && input[2..] == rest;
    IncludedExact(files, path, base, chain, nested);
  }

  lemma IncludedExact(files: Files, path: string, base: string, chain: seq<string>, nested: Option<seq<string>>)
    requires |chain| <= 8 && StandsFor(files, path, base, chain, nested)
    ensures Included(files, path, base, chain) == nested
  {
  }

  /** An at sign before a path of an existing file does so too. */
  lemma AtSignExact(files: Files, path: string, rest: seq<string>, base: string, chain: seq<string>,
                    nested: Option<seq<string>>)
    requires |chain| <= 8 && path != "" && files.present(base, path) && StandsFor(files, path, base, chain, nested)
    ensures Flatten(files, ["@" + path] + rest, base, chain) ==
            if nested.None? then None else Join(nested.value, Flatten(files, rest, base, chain))
  {
    var argument := "@" + path;
    var input := [argument] + rest;
    assert argument[0] == '@' && argument[1..] == path && argument != "--config" && argument != "--response-file" by {
      assert "--config"[0] == '-' && "--response-file"[0] == '-';
    }
    assert Front(files, input, base) == Include(path, 1) && input[1..] == rest;
    IncludedExact(files, path, base, chain, nested);
  }

  /** Every other argument is kept. */
  lemma PlainExact(files: Files, argument: string, rest: seq<string>, base: string, chain: seq<string>)
    requires |chain| <= 8 && argument != "--response-file" && argument != "--config"
    requires |argument| <= 1 || argument[0] != '@' || !files.present(base, argument[1..])
    ensures Flatten(files, [argument] + rest, base, chain) == Join([argument], Flatten(files, rest, base, chain))
  {
    assert ([argument] + rest)[1..] == rest;
  }

  /** Flattening two argument lists one after the other is flattening their
      concatenation. */
  lemma {:induction false} FlattenConcat(files: Files, one: seq<string>, two: seq<string>, base: string,
                                         chain: seq<string>)
    requires Flatten(files, one, base, chain).Some?
    ensures Flatten(files, one + two, base, chain) ==
            Join(Flatten(files, one, base, chain).value, Flatten(files, two, base, chain))
    decreases |one|
  {
    if one == [] {
      assert one + two == two;
      if Flatten(files, two, base, chain).Some? {
        assert [] + Flatten(files, two, base, chain).value == Flatten(files, two, base, chain).value;
      }
    } else {
      var item := Front(files, one, base);
      assert Front(files, one + two, base) == item;
      assert (one + two)[item.used..] == one[item.used..] + two;
      FlattenConcat(files, one[item.used..], two, base, chain);
      var rest := Flatten(files, one[item.used..], base, chain).value;
      var head := if item.Plain? then [item.text] else Included(files, item.path, base, chain).value;
      JoinTwice(head, rest, Flatten(files, two, base, chain));
    }
  }

  /** What an input flattens to does not depend on the files open around it:
      with fewer of them it still flattens, and to the same arguments. */
  lemma {:induction false} FewerOpenFiles(files: Files, input: seq<string>, base: string, chain: seq<string>,
                                          fewer: seq<string>)
    requires |fewer| <= |chain| && forall file | file in fewer :: file in chain
    requires Flatten(files, input, base, chain).Some?
    ensures Flatten(files, input, base, fewer) == Flatten(files, input, base, chain)
    decreases MAXIMUM_DEPTH + 1 - |chain|, |input|
  {
    if input != [] {
      var item := Front(files, input, base);
      FewerOpenFiles(files, input[item.used..], base, chain, fewer);
      if item.Include? {
        var file := files.canonical(base, item.path).value;
        FewerOpenFiles(files, files.parse(file).value, files.directory(file), chain + [file], fewer + [file]);
      }
    }
  }

  // ---------- the flattening by include chains ----------

  /** The argument list, walked without following its includes, has one that
      resolves to `file`. */
  predicate Opens(files: Files, input: seq<string>, base: string, file: string)
    decreases |input|
  {
    input != [] &&
    match Front(files, input, base)
    case Incomplete => false
    case Plain(_, used) => Opens(files, input[used..], base, file)
    case Include(path, used) => files.canonical(base, path) == Some(file) || Opens(files, input[used..], base, file)
  }

  /** Every flag has its path, and every include a file that parses. */
  predicate Intact(files: Files, input: seq<string>, base: string)
    decreases |input|
  {
    input == [] ||
    match Front(files, input, base)
    case Incomplete => false
    case Plain(_, used) => Intact(files, input[used..], base)
    case Include(path, used) =>
      files.canonical(base, path).Some? && files.parse(files.canonical(base, path).value).Some? &&
      Intact(files, input[used..], base)
  }

  /** Files each included by the one before, the first by the input. */
  ghost predicate IncludeChain(files: Files, input: seq<string>, base: string, chain: seq<string>)
    decreases |chain|
  {
    chain == [] ||
    (Opens(files, input, base, chain[0]) && files.parse(chain[0]).Some? &&
     IncludeChain(files, files.parse(chain[0]).value, files.directory(chain[0]), chain[1..]))
  }

  /** What the end of an include chain holds. */
  predicate EndIntact(files: Files, input: seq<string>, base: string, chain: seq<string>) {
    if chain == [] then Intact(files, input, base)
    else
      var last := chain[|chain| - 1];
      files.parse(last).Some? && Intact(files, files.parse(last).value, files.directory(last))
  }

  /** `chain` continues the open files without a repeat or one too many, and
      ends in an intact list. */
  ghost predicate Sound(files: Files, input: seq<string>, base: string, open: seq<string>, chain: seq<string>) {
    Distinct(open + chain) && |open + chain| <= MAXIMUM_DEPTH && EndIntact(files, input, base, chain)
  }

  ghost predicate AllSound(files: Files, input: seq<string>, base: string, open: seq<string>) {
    forall chain | IncludeChain(files, input, base, chain) :: Sound(files, input, base, open, chain)
  }

  lemma {:induction false} FlattenedOpens(files: Files, input: seq<string>, base: string, open: seq<string>)
    requires Flatten(files, input, base, open).Some?
    ensures Intact(files, input, base)
    ensures forall file | Opens(files, input, base, file) ::
              file !in open && files.parse(file).Some? &&
              Flatten(files, files.parse(file).value, files.directory(file), open + [file]).Some?
    decreases |input|
  {
    if input != [] { FlattenedOpens(files, input[Front(files, input, base).used..], base, open); }
  }

  lemma {:induction false} FlattenedIsSound(files: Files, input: seq<string>, base: string, open: seq<string>,
                                            chain: seq<string>)
    requires Flatten(files, input, base, open).Some? && Distinct(open)
    requires IncludeChain(files, input, base, chain)
    ensures Sound(files, input, base, open, chain)
    decreases |chain|
  {
    FlattenedOpens(files, input, base, open);
    if chain == [] {
      assert open + chain == open;
    } else {
      var file, rest := chain[0], chain[1..];
      assert Distinct(open + [file]);
      FlattenedIsSound(files, files.parse(file).value, files.directory(file), open + [file], rest);
      assert open + [file] + rest == open + chain;
    }
  }

  lemma {:induction false} OpensFlatten(files: Files, input: seq<string>, base: string, open: seq<string>)
    requires |open| <= MAXIMUM_DEPTH && Intact(files, input, base)
    requires forall file | Opens(files, input, base, file) ::
               file !in open && files.parse(file).Some? &&
               Flatten(files, files.parse(file).value, files.directory(file), open + [file]).Some?
    ensures Flatten(files, input, base, open).Some?
    decreases |input|
  {
    if input != [] {
      var item := Front(files, input, base);
      OpensFlatten(files, input[item.used..], base, open);
      if item.Include? { assert Opens(files, input, base, files.canonical(base, item.path).value); }
    }
  }

  lemma {:induction false} IntactOpensParse(files: Files, input: seq<string>, base: string, file: string)
    requires Intact(files, input, base) && Opens(files, input, base, file)
    ensures files.parse(file).Some?
    decreases |input|
  {
    var item := Front(files, input, base);
    if !(item.Include? && files.canonical(base, item.path) == Some(file)) {
      IntactOpensParse(files, input[item.used..], base, file);
    }
  }

  lemma {:induction false} SoundFlattens(files: Files, input: seq<string>, base: string, open: seq<string>)
    requires AllSound(files, input, base, open)
    ensures Flatten(files, input, base, open).Some?
    decreases MAXIMUM_DEPTH + 1 - |open|
  {
    assert IncludeChain(files, input, base, []);
    assert Sound(files, input, base, open, []);
    assert open + [] == open;
    forall file | Opens(files, input, base, file)
      ensures file !in open && files.parse(file).Some?
      ensures Flatten(files, files.parse(file).value, files.directory(file), open + [file]).Some?
    {
      IntactOpensParse(files, input, base, file);
      assert IncludeChain(files, input, base, [file]);
      assert Sound(files, input, base, open, [file]);
      LastIsNew(open, file);
      BelowSound(files, input, base, open, file);
      SoundFlattens(files, files.parse(file).value, files.directory(file), open + [file]);
    }
    OpensFlatten(files, input, base, open);
  }

  lemma LastIsNew(open: seq<string>, file: string)
    requires Distinct(open + [file])
    ensures file !in open
  {
    forall i | 0 <= i < |open| ensures open[i] != file {
      assert (open + [file])[i] != (open + [file])[|open|];
    }
  }

  lemma BelowSound(files: Files, input: seq<string>, base: string, open: seq<string>, file: string)
    requires AllSound(files, input, base, open) && Opens(files, input, base, file) && files.parse(file).Some?
    ensures AllSound(files, files.parse(file).value, files.directory(file), open + [file])
  {
    var inner, directory := files.parse(file).value, files.directory(file);
    forall chain | IncludeChain(files, inner, directory, chain)
      ensures Sound(files, inner, directory, open + [file], chain)
    {
      var longer := [file] + chain;
      assert longer[1..] == chain;
      assert IncludeChain(files, input, base, longer);
      assert Sound(files, input, base, open, longer);
      assert open + longer == open + [file] + chain;
      if chain != [] { assert longer[|longer| - 1] == chain[|chain| - 1]; }
    }
  }

  /** The flattening exists exactly when every chain of includes repeats no
      file, is at most eight long, and ends in a list whose flags have their
      paths and whose includes have files that parse. */
  lemma FlattenExact(files: Files, input: seq<string>, base: string)
    ensures Flatten(files, input, base, []).Some? <==>
            forall chain | IncludeChain(files, input, base, chain) ::
              Distinct(chain) && |chain| <= 8 && EndIntact(files, input, base, chain)
  {
    assert forall chain: seq<string> :: [] + chain == chain;
    if Flatten(files, input, base, []).Some? {
      forall chain | IncludeChain(files, input, base, chain) ensures Sound(files, input, base, [], chain) {
        FlattenedIsSound(files, input, base, [], chain);
      }
    }
    if forall chain | IncludeChain(files, input, base, chain) ::
         Distinct(chain) && |chain| <= 8 && EndIntact(files, input, base, chain)
    {
      assert AllSound(files, input, base, []);
      SoundFlattens(files, input, base, []);
    }
  }

  /** A file that reaches itself through includes, at whatever depth, never
      expands, wherever it is included. */
  lemma SelfIncludeFails(files: Files, path: string, base: string, open: seq<string>, file: string, loop: seq<string>)
    requires |open| <= MAXIMUM_DEPTH && files.canonical(base, path) == Some(file) && files.parse(file).Some?
    requires IncludeChain(files, files.parse(file).value, files.directory(file), loop)
    requires loop != [] && loop[|loop| - 1] == file
    ensures Included(files, path, base, open).None?
  {
    var input, directory, all := files.parse(file).value, files.directory(file), [file] + loop;
    assert !Distinct(all) by { assert all[0] == all[|loop|]; }
    if Included(files, path, base, open).Some? {
      FewerOpenFiles(files, input, directory, open + [file], [file]);
      FlattenedIsSound(files, input, directory, [file], loop);
    }
  }

  // ---------- flags without a file ----------

  predicate IsFlag(argument: string) {
    argument == "--response-file" || argument == "--config"
  }

  /** The argument list, walked without following its includes, has a flag with
      an empty path. */
  predicate HasEmptyPath(files: Files, input: seq<string>, base: string)
    decreases |input|
  {
    input != [] &&
    match Front(files, input, base)
    case Incomplete => false
    case Plain(text, used) => IsFlag(text) || HasEmptyPath(files, input[used..], base)
    case Include(_, used) => HasEmptyPath(files, input[used..], base)
  }

  /** A flag is kept as an argument exactly when its path is empty. */
  lemma FlagIsPlainExact(files: Files, input: seq<string>, base: string)
    requires input != [] && Front(files, input, base).Plain?
    ensures IsFlag(Front(files, input, base).text) <==> IsFlag(input[0]) && |input| > 1 && input[1] == ""
  {
  }

  ghost predicate ChainHasEmptyPath(files: Files, input: seq<string>, base: string, chain: seq<string>) {
    IncludeChain(files, input, base, chain) &&
    if chain == [] then HasEmptyPath(files, input, base)
    else
      var last := chain[|chain| - 1];
      files.parse(last).Some? && HasEmptyPath(files, files.parse(last).value, files.directory(last))
  }

  /** Some list reached through includes has one. */
  ghost predicate ReachesEmptyPath(files: Files, input: seq<string>, base: string) {
    exists chain :: ChainHasEmptyPath(files, input, base, chain)
  }

  lemma EmptyPathBelow(files: Files, input: seq<string>, base: string)
    ensures ReachesEmptyPath(files, input, base) <==>
            HasEmptyPath(files, input, base) ||
            exists file :: Opens(files, input, base, file) && files.parse(file).Some? &&
                           ReachesEmptyPath(files, files.parse(file).value, files.directory(file))
  {
    if HasEmptyPath(files, input, base) { assert ChainHasEmptyPath(files, input, base, []); }
    if file :| Opens(files, input, base, file) && files.parse(file).Some? &&
               ReachesEmptyPath(files, files.parse(file).value, files.directory(file))
    {
      var chain :| ChainHasEmptyPath(files, files.parse(file).value, files.directory(file), chain);
      var longer := [file] + chain;
      assert longer[1..] == chain;
      assert ChainHasEmptyPath(files, input, base, longer);
    }
    if chain :| ChainHasEmptyPath(files, input, base, chain) {
      if chain != [] {
        assert ChainHasEmptyPath(files, files.parse(chain[0]).value, files.directory(chain[0]), chain[1..]);
      }
    }
  }

  predicate HasFlag(arguments: seq<string>) {
    exists argument | argument in arguments :: IsFlag(argument)
  }

  /** A flag is left among the expanded arguments, its path dropped, exactly when
      an argument list reached through includes has a flag with an empty path. */
  lemma {:induction false} FlagIsLeftExact(files: Files, input: seq<string>, base: string, open: seq<string>)
    requires Flatten(files, input, base, open).Some?
    ensures HasFlag(Flatten(files, input, base, open).value) <==> ReachesEmptyPath(files, input, base)
    decreases MAXIMUM_DEPTH + 1 - |open|, |input|
  {
    EmptyPathBelow(files, input, base);
    if input != [] {
      var item := Front(files, input, base);
      var rest := input[item.used..];
      var tail := Flatten(files, rest, base, open).value;
      FlagIsLeftExact(files, rest, base, open);
      EmptyPathBelow(files, rest, base);
      if item.Plain? {
        FlagsJoin([item.text], tail);
        assert item.text in [item.text];
      } else {
        var file := files.canonical(base, item.path).value;
        var inner, directory := files.parse(file).value, files.directory(file);
        FlagIsLeftExact(files, inner, directory, open + [file]);
        FlagsJoin(Flatten(files, inner, directory, open + [file]).value, tail);
        assert Opens(files, input, base, file);
      }
    }
  }

  lemma FlagsJoin(one: seq<string>, two: seq<string>)
    ensures HasFlag(one + two) <==> HasFlag(one) || HasFlag(two)
  {
    forall argument ensures argument in one + two <==> argument in one || argument in two {}
  }

  /** The smallest case. */
  lemma EmptyPathLeavesFlag(files: Files, base: string)
    ensures Flatten(files, ["--response-file", ""], base, []) == Some(["--response-file"])
  {
    var input := ["--response-file", ""];
    assert Front(files, input, base) == Plain("--response-file", 2);
    assert input[2..] == [];
    assert ["--response-file"] + [] == ["--response-file"];
  }
}
