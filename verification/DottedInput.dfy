/**
 Input given as dotted paths, `a.b.c=value`, and the nested object it stands for.  Values
 are whatever `parse` makes of their text.
 */
module DottedInput {
  import opened Wrappers
  import opened Texts

  type Path = seq<string>

  datatype Problem = MissingPath | EmptySegment | TooManySegments | Duplicate(path: string) | Conflict(path: string)

  datatype Parameter = Parameter(path: Path, text: string)

  /** The tree while it is built: a node for every path that has one, the root left implicit. */
  datatype Node<V> = Inner | Leaf(value: V)

  type Tree<V> = map<Path, Node<V>>

  datatype Json<V> = Value(value: V) | Object(fields: map<string, Json<V>>)

  const MAX_SEGMENTS := 64

  predicate HasEmpty(path: Path) {
    exists i | 0 <= i < |path| :: path[i] == ""
  }

  /** One parameter on its own: the text before the first equals sign, split at its dots. */
  function Read(parameter: string): Result<Parameter, Problem> {
    var at := IndexOf(parameter, '=', 0);
    if at < 1 || at == |parameter| then Err(MissingPath)
    else
      var path := Split(parameter[..at], '.');
      if HasEmpty(path) then Err(EmptySegment)
      else if |path| > MAX_SEGMENTS then Err(TooManySegments)
      else Ok(Parameter(path, parameter[at + 1..]))
  }

  /** A parameter is read as a path and a text exactly when it is the path, dotted, then `=` and the text. */
  lemma {:induction false} ReadExactly(parameter: string, path: Path, text: string)
    ensures Read(parameter) == Ok(Parameter(path, text)) <==>
            && 1 <= |path| <= 64 && (forall i | 0 <= i < |path| :: path[i] != "" && '.' !in path[i] && '=' !in path[i])
            && parameter == Join(path, '.') + "=" + text
  {
    hide Split, IndexOf, Join;
    var at := IndexOf(parameter, '=', 0);
    assert parameter[0..at] == parameter[..at];
    if Read(parameter) == Ok(Parameter(path, text)) {
      assert parameter == parameter[..at] + "=" + parameter[at + 1..];
      forall i | 0 <= i < |path| ensures path[i] != "" && '.' !in path[i] && '=' !in path[i] {
        assert path[i] in path;
        JoinHolds(path, '.', '=', i);
      }
    } else if 1 <= |path| <= 64 && (forall i | 0 <= i < |path| :: path[i] != "" && '.' !in path[i] && '=' !in path[i])
              && parameter == Join(path, '.') + "=" + text {
      var joined := Join(path, '.');
      JoinLacks(path, '.', '=');
      assert parameter[..|joined|] == joined && parameter[|joined|] == '=' && parameter[|joined| + 1..] == text;
      assert parameter[0..|joined|] == joined;
      IndexIs(parameter, '=', 0, |joined|);
      SplitJoin(path, '.');
    }
  }

  lemma {:induction false} IndexIs(s: string, c: char, from: nat, at: nat)
    requires from <= at < |s| && s[at] == c && c !in s[from..at]
    ensures IndexOf(s, c, from) == at
    decreases at - from
  {
    if from < at {
      assert s[from..at][0] == s[from] && s[from + 1..at] == s[from..at][1..];
      IndexIs(s, c, from + 1, at);
    }
  }

  lemma {:induction false} JoinLacks(parts: seq<string>, sep: char, c: char)
    requires parts != [] && sep != c && forall i | 0 <= i < |parts| :: parts[i] != "" && c !in parts[i]
    ensures Join(parts, sep) != "" && c !in Join(parts, sep)
  {
    if |parts| > 1 { JoinLacks(parts[1..], sep, c); }
  }

  lemma {:induction false} JoinHolds(parts: seq<string>, sep: char, c: char, i: nat)
    requires i < |parts| && c !in Join(parts, sep)
    ensures c !in parts[i]
  {
    if |parts| > 1 {
      assert forall x | x in parts[0] :: x in Join(parts, sep);
      assert forall x | x in Join(parts[1..], sep) :: x in Join(parts, sep);
      if i > 0 { JoinHolds(parts[1..], sep, c, i - 1); }
    }
  }

  // ----- which parameters go together ---------------------------------------

  /** Neither path leads to or through the other. */
  predicate Apart(p: Path, q: Path) {
    !(p <= q) && !(q <= p)
  }

  /** Every parameter is well-formed and no path is another one or a prefix of it. */
  ghost predicate Acceptable(parameters: seq<string>) {
    && (forall i | 0 <= i < |parameters| :: Read(parameters[i]).Ok?)
    && (forall i, j | 0 <= i < j < |parameters| :: Apart(Read(parameters[i]).value.path, Read(parameters[j]).value.path))
  }

  /** The path of one of the parameters. */
  ghost predicate Given(parameters: seq<string>, path: Path) {
    exists i | 0 <= i < |parameters| :: Read(parameters[i]).Ok? && Read(parameters[i]).value.path == path
  }

  /** A proper prefix of the path of one of the parameters. */
  ghost predicate Within(parameters: seq<string>, path: Path) {
    exists i | 0 <= i < |parameters| :: Read(parameters[i]).Ok? && path < Read(parameters[i]).value.path
  }

  // ----- the object a tree stands for -----------------------------------------

  ghost predicate Grown<V>(tree: Tree<V>) {
    forall p <- tree :: 0 < |p| <= MAX_SEGMENTS && forall k | 0 < k < |p| :: p[..k] in tree && tree[p[..k]] == Inner
  }

  function Names<V>(tree: Tree<V>, at: Path): set<string> {
    set p | p in tree.Keys && |p| == |at| + 1 && at < p :: p[|at|]
  }

  lemma {:induction false} NameIsNode<V>(tree: Tree<V>, at: Path, name: string)
    ensures name in Names(tree, at) <==> at + [name] in tree
  {
    if name in Names(tree, at) {
      var p :| p in tree.Keys && |p| == |at| + 1 && at < p && p[|at|] == name;
      assert p == at + [name];
    }
    if at + [name] in tree { assert (at + [name])[|at|] == name; }
  }

  function ToJson<V>(tree: Tree<V>, at: Path): Json<V>
    requires Grown(tree) && |at| <= MAX_SEGMENTS
    decreases MAX_SEGMENTS - |at|
  {
    if at in tree && tree[at].Leaf? then Value(tree[at].value)
    else Object(map name | name in Names(tree, at) :: assert at + [name] in tree by { NameIsNode(tree, at, name); }
                                                       ToJson(tree, at + [name]))
  }

  /** Reading a path of an object. */
  function Lookup<V>(json: Json<V>, path: Path): Option<Json<V>> {
    if path == [] then Some(json)
    else if json.Object? && path[0] in json.fields then Lookup(json.fields[path[0]], path[1..])
    else None
  }

  lemma {:induction false} ChildOf<V>(tree: Tree<V>, at: Path, name: string)
    requires Grown(tree) && |at| <= MAX_SEGMENTS
    ensures ToJson(tree, at).Value? <==> at in tree && tree[at].Leaf?
    ensures ToJson(tree, at).Object? ==> (name in ToJson(tree, at).fields <==> at + [name] in tree)
    ensures ToJson(tree, at).Object? && at + [name] in tree ==>
              |at| < MAX_SEGMENTS && ToJson(tree, at).fields[name] == ToJson(tree, at + [name])
  {
    NameIsNode(tree, at, name);
  }

  /** Reading the object finds exactly the nodes of the tree. */
  lemma {:induction false} LookupFindsNodes<V>(tree: Tree<V>, at: Path, path: Path)
    requires Grown(tree) && |at| <= MAX_SEGMENTS && (at == [] || at in tree)
    ensures path != [] && at + path !in tree ==> Lookup(ToJson(tree, at), path).None?
    ensures path == [] || at + path in tree ==>
              |at + path| <= MAX_SEGMENTS && Lookup(ToJson(tree, at), path) == Some(ToJson(tree, at + path))
    decreases |path|
  {
    hide ToJson;
    if path == [] {
      assert at + path == at;
    } else {
      var next := at + [path[0]];
      assert next + path[1..] == at + path;
      ChildOf(tree, at, path[0]);
      assert at + path in tree && at != [] ==> (at + path)[..|at|] == at;
      assert at + path in tree ==> (at + path)[..|next|] == next;
      assert path[1..] == [] ==> next == at + path;
      if next in tree {
        LookupFindsNodes(tree, next, path[1..]);
      }
    }
  }

  // ----- building the tree ------------------------------------------------------

  /** What has to be in the tree: leaves at the given paths, inner nodes on the way to them. */
  ghost predicate Holds<V>(tree: Tree<V>, parameters: seq<string>, parse: string -> V) {
    && Grown(tree)
    && (forall p :: p in tree <==> p != [] && (Given(parameters, p) || Within(parameters, p)))
    && (forall p <- tree :: tree[p] == Inner <==> Within(parameters, p))
    && LeavesStand(tree, parameters, parse)
  }

  ghost predicate LeavesStand<V>(tree: Tree<V>, parameters: seq<string>, parse: string -> V) {
    forall i | 0 <= i < |parameters| && Read(parameters[i]).Ok? ::
      var r := Read(parameters[i]).value; r.path in tree && tree[r.path] == Leaf(parse(r.text))
  }

  /** The way to the path is free: nothing is at the path, and no leaf on the way to it. */
  ghost predicate Free<V>(tree: Tree<V>, path: Path) {
    path !in tree && forall k | 0 < k < |path| :: path[..k] in tree ==> tree[path[..k]] == Inner
  }

  function Steps(path: Path, n: nat): set<Path>
    requires n <= |path|
  {
    set k | 0 < k <= n :: path[..k]
  }

  /** The tree with inner nodes for the first `n` steps of the path. */
  function Walked<V>(tree: Tree<V>, path: Path, n: nat): Tree<V>
    requires n <= |path|
  {
    map p | p in tree.Keys + Steps(path, n) :: if p in tree then tree[p] else Inner
  }

  lemma {:induction false} WalkedOneMore<V>(tree: Tree<V>, path: Path, n: nat)
    requires n < |path|
    ensures path[..n + 1] in tree ==> Walked(tree, path, n + 1) == Walked(tree, path, n)
    ensures path[..n + 1] !in tree ==> Walked(tree, path, n + 1) == Walked(tree, path, n)[path[..n + 1] := Inner]
    ensures path[..n + 1] in Walked(tree, path, n) <==> path[..n + 1] in tree
  {
    forall p ensures p in Steps(path, n + 1) <==> p in Steps(path, n) || p == path[..n + 1] {
      if p == path[..n + 1] { assert p in Steps(path, n + 1); }
    }
    assert forall p <- Steps(path, n) :: |p| <= n;
  }

  /** Walks one path and puts its value at the end; fails when the way is not free. */
  method AddPath<V>(tree: Tree<V>, path: Path, value: V, shown: string) returns (r: Result<Tree<V>, Problem>)
    requires path != []
    ensures r.Ok? <==> Free(tree, path)
    ensures r.Err? ==> r.error == Duplicate(shown) || r.error == Conflict(shown)
    ensures r.Err? && r.error.Duplicate? ==> path in tree && tree[path].Leaf?
    ensures r.Ok? ==> r.value == Walked(tree, path, |path| - 1)[path := Leaf(value)]
  {
    var grown, at: Path := tree, [];
    assert Walked(tree, path, 0) == tree;
    for index := 0 to |path|
      invariant index < |path| ==> at == path[..index] && grown == Walked(tree, path, index)
      invariant forall k | 0 < k <= index && k < |path| :: path[..k] in tree ==> tree[path[..k]] == Inner
      invariant index == |path| ==>
                  Free(tree, path) && grown == Walked(tree, path, |path| - 1)[path := Leaf(value)]
    {
      hide Walked;
      var next := at + [path[index]];
      assert next == path[..index + 1];
      WalkedOneMore(tree, path, index);
      if index == |path| - 1 {
        assert next == path;
        if next in grown && grown[next].Leaf? {
          return Err(Duplicate(shown));
        }
        if next in grown {
          return Err(Conflict(shown));
        }
        grown := grown[next := Leaf(value)];
      } else {
        if next in grown && grown[next].Leaf? {
          return Err(Conflict(shown));
        }
        if next !in grown {
          grown := grown[next := Inner];
        }
        at := next;
      }
    }
    r := Ok(grown);
  }

  // ----- the tree always holds what was given --------------------------------------

  lemma {:induction false} OneMoreGiven(parameters: seq<string>, parameter: string, path: Path)
    requires Read(parameter).Ok?
    ensures Given(parameters + [parameter], path) <==> Given(parameters, path) || path == Read(parameter).value.path
    ensures Within(parameters + [parameter], path) <==> Within(parameters, path) || path < Read(parameter).value.path
  {
    hide Read;
    var all := parameters + [parameter];
    assert all[|parameters|] == parameter && forall i | 0 <= i < |parameters| :: all[i] == parameters[i];
    if Given(parameters, path) {
      var i :| 0 <= i < |parameters| && Read(parameters[i]).Ok? && Read(parameters[i]).value.path == path;
      assert Read(all[i]).value.path == path;
    }
    if Within(parameters, path) {
      var i :| 0 <= i < |parameters| && Read(parameters[i]).Ok? && path < Read(parameters[i]).value.path;
      assert path < Read(all[i]).value.path;
    }
  }

  lemma {:induction false} ReadPath(parameter: string)
    requires Read(parameter).Ok?
    ensures 0 < |Read(parameter).value.path| <= MAX_SEGMENTS
  {
  }

  lemma {:induction false} PrefixIsStep(q: Path, path: Path)
    ensures q < path ==> |q| < |path| && path[..|q|] == q
  {
  }

  /** The way is free exactly when the path is apart from every path given so far. */
  lemma {:induction false} FreeIsApart<V>(tree: Tree<V>, parameters: seq<string>, parse: string -> V, path: Path)
    requires Holds(tree, parameters, parse) && path != []
    requires forall i | 0 <= i < |parameters| :: Read(parameters[i]).Ok?
    ensures Free(tree, path) <==> forall i | 0 <= i < |parameters| :: Apart(Read(parameters[i]).value.path, path)
  {
    hide Read;
    if Free(tree, path) {
      forall i | 0 <= i < |parameters| ensures Apart(Read(parameters[i]).value.path, path) {
        var q := Read(parameters[i]).value.path;
        assert Given(parameters, q);
        assert !Given(parameters, path) && !Within(parameters, path);
        PrefixIsStep(q, path);
      }
    }
    if forall i | 0 <= i < |parameters| :: Apart(Read(parameters[i]).value.path, path) {
      assert !Given(parameters, path) && !Within(parameters, path);
      forall k | 0 < k < |path| && path[..k] in tree ensures tree[path[..k]] == Inner {
        assert path[..k] < path;
        assert !Given(parameters, path[..k]);
      }
    }
  }

  ghost predicate IsPlanted<V>(tree: Tree<V>, path: Path, value: V, after: Tree<V>) {
    && path in after && after[path] == Leaf(value)
    && (forall p :: p in after <==> p in tree || p == path || (p != [] && p < path))
    && (forall p | p in after && p != path :: after[p] == if p in tree then tree[p] else Inner)
  }

  lemma {:induction false} Planted<V>(tree: Tree<V>, path: Path, value: V)
    requires path != []
    ensures IsPlanted(tree, path, value, Walked(tree, path, |path| - 1)[path := Leaf(value)])
  {
    var n := |path| - 1;
    forall p ensures p in Steps(path, n) <==> p != [] && p < path { StepIsPrefix(path, p); }
  }

  lemma {:induction false} PlantedInner<V>(tree: Tree<V>, parameters: seq<string>, parse: string -> V, parameter: string,
                                           value: V, after: Tree<V>)
    requires Holds(tree, parameters, parse) && Read(parameter).Ok? && Free(tree, Read(parameter).value.path)
    requires forall i | 0 <= i < |parameters| :: Read(parameters[i]).Ok?
    requires IsPlanted(tree, Read(parameter).value.path, value, after)
    ensures forall p :: p in after <==> p != [] && (Given(parameters + [parameter], p) || Within(parameters + [parameter], p))
    ensures forall p <- after :: after[p] == Inner <==> Within(parameters + [parameter], p)
  {
    ReadPath(parameter);
    var path := Read(parameter).value.path;
    FreeIsApart(tree, parameters, parse, path);
    hide Read, Given, Within, Grown, Free, Apart;
    forall p
      ensures p in after <==> p != [] && (Given(parameters + [parameter], p) || Within(parameters + [parameter], p))
      ensures p in after ==> (after[p] == Inner <==> Within(parameters + [parameter], p))
    {
      OneMoreGiven(parameters, parameter, p);
      InnerBefore(tree, path, p);
    }
  }

  lemma {:induction false} PlantedLeaves<V>(tree: Tree<V>, parameters: seq<string>, parse: string -> V, parameter: string,
                                            after: Tree<V>, i: nat)
    requires Holds(tree, parameters, parse) && Read(parameter).Ok? && Free(tree, Read(parameter).value.path)
    requires forall i | 0 <= i < |parameters| :: Read(parameters[i]).Ok?
    requires IsPlanted(tree, Read(parameter).value.path, parse(Read(parameter).value.text), after)
    requires i <= |parameters|
    ensures var r := Read((parameters + [parameter])[i]).value; r.path in after && after[r.path] == Leaf(parse(r.text))
  {
    ReadPath(parameter);
    var path := Read(parameter).value.path;
    FreeIsApart(tree, parameters, parse, path);
    hide Read, Given, Within, Grown, Free;
    if i < |parameters| { assert (parameters + [parameter])[i] == parameters[i]; }
  }

  lemma {:induction false} PlantedStand<V>(tree: Tree<V>, parameters: seq<string>, parse: string -> V, parameter: string,
                                           after: Tree<V>)
    requires Holds(tree, parameters, parse) && Read(parameter).Ok? && Free(tree, Read(parameter).value.path)
    requires forall i | 0 <= i < |parameters| :: Read(parameters[i]).Ok?
    requires IsPlanted(tree, Read(parameter).value.path, parse(Read(parameter).value.text), after)
    ensures LeavesStand(after, parameters + [parameter], parse)
  {
    hide Read, Holds, Free, IsPlanted;
    forall i | 0 <= i < |parameters + [parameter]|
      ensures var r := Read((parameters + [parameter])[i]).value; r.path in after && after[r.path] == Leaf(parse(r.text))
    {
      PlantedLeaves(tree, parameters, parse, parameter, after, i);
    }
  }

  lemma {:induction false} PlantHolds<V>(tree: Tree<V>, parameters: seq<string>, parse: string -> V, parameter: string)
    requires Holds(tree, parameters, parse) && Read(parameter).Ok? && Free(tree, Read(parameter).value.path)
    requires forall i | 0 <= i < |parameters| :: Read(parameters[i]).Ok?
    ensures var read := Read(parameter).value;
            Holds(Walked(tree, read.path, |read.path| - 1)[read.path := Leaf(parse(read.text))], parameters + [parameter], parse)
  {
    ReadPath(parameter);
    hide Read, Walked, Given, Within, Grown, Free, Apart, IsPlanted, LeavesStand;
    var path, value := Read(parameter).value.path, parse(Read(parameter).value.text);
    var after := Walked(tree, path, |path| - 1)[path := Leaf(value)];
    Planted(tree, path, value);
    PlantGrown(tree, path, value, after);
    PlantedInner(tree, parameters, parse, parameter, value, after);
    PlantedStand(tree, parameters, parse, parameter, after);
  }

  lemma {:induction false} InnerBefore<V>(tree: Tree<V>, path: Path, p: Path)
    requires Free(tree, path)
    ensures p < path && p != [] && p in tree ==> tree[p] == Inner
  {
    PrefixIsStep(p, path);
  }

  lemma {:induction false} StepIsPrefix(path: Path, p: Path)
    requires path != []
    ensures p in Steps(path, |path| - 1) <==> p != [] && p < path
  {
    if p != [] && p < path { assert path[..|p|] == p; }
  }

  lemma {:induction false} PlantGrown<V>(tree: Tree<V>, path: Path, value: V, after: Tree<V>)
    requires Grown(tree) && Free(tree, path) && 0 < |path| <= MAX_SEGMENTS
    requires IsPlanted(tree, path, value, after)
    ensures Grown(after)
  {
    forall p, k | p in after && 0 < k < |p| ensures p[..k] in after && after[p[..k]] == Inner {
      if p in tree {
        assert p[..k] in tree && tree[p[..k]] == Inner;
      } else {
        assert p[..k] == path[..k];
      }
    }
  }

  /**
   Parses the parameters one by one, walking each path from the root.  Succeeds exactly on
   acceptable parameters, and then the object has the given leaves and no others.
   */
  method ParseDottedInputParameters<V>(parameters: seq<string>, parse: string -> V) returns (r: Result<Json<V>, Problem>)
    ensures r.Ok? <==> Acceptable(parameters)
    ensures r.Ok? ==> forall i | 0 <= i < |parameters| ::
              Lookup(r.value, Read(parameters[i]).value.path) == Some(Value(parse(Read(parameters[i]).value.text)))
    ensures r.Ok? ==> forall path, v :: Lookup(r.value, path) == Some(Value(v)) ==> Given(parameters, path)
  {
    hide Read, Holds, Walked, Free;
    var tree: Tree<V> := map[];
    NothingHeld(tree, parse);
    for i := 0 to |parameters|
      invariant Acceptable(parameters[..i]) && Holds(tree, parameters[..i], parse)
    {
      var read := Read(parameters[i]);
      assert parameters[..i + 1] == parameters[..i] + [parameters[i]];
      if read.Err? {
        return Err(read.error);
      }
      var path := read.value.path;
      ReadPath(parameters[i]);
      FreeIsApart(tree, parameters[..i], parse, path);
      var added := AddPath(tree, path, parse(read.value.text), Join(path, '.'));
      if added.Err? {
        return Err(added.error);
      }
      PlantHolds(tree, parameters[..i], parse, parameters[i]);
      tree := added.value;
    }
    assert parameters[..|parameters|] == parameters;
    HeldIsRead(tree, parameters, parse);
    r := Ok(ToJson(tree, []));
  }

  lemma {:induction false} NothingHeld<V>(tree: Tree<V>, parse: string -> V)
    requires tree == map[]
    ensures Holds(tree, [], parse)
  {
  }

  lemma {:induction false} HeldIsRead<V>(tree: Tree<V>, parameters: seq<string>, parse: string -> V)
    requires Holds(tree, parameters, parse) && Acceptable(parameters)
    ensures Grown(tree)
    ensures forall i | 0 <= i < |parameters| ::
              Lookup(ToJson(tree, []), Read(parameters[i]).value.path) == Some(Value(parse(Read(parameters[i]).value.text)))
    ensures forall path, v :: Lookup(ToJson(tree, []), path) == Some(Value(v)) ==> Given(parameters, path)
  {
    hide Read, Lookup;
    forall i | 0 <= i < |parameters|
      ensures Lookup(ToJson(tree, []), Read(parameters[i]).value.path) == Some(Value(parse(Read(parameters[i]).value.text)))
    {
      var path := Read(parameters[i]).value.path;
      LookupFindsNodes(tree, [], path);
      assert [] + path == path;
    }
    forall path, v | Lookup(ToJson(tree, []), path) == Some(Value(v)) ensures Given(parameters, path) {
      LookupFindsNodes(tree, [], path);
      assert [] + path == path;
    }
  }

  // ----- the order of the parameters does not matter ---------------------------------

  lemma {:induction false} CountTwice(parameters: seq<string>, parameter: string)
    requires multiset(parameters)[parameter] > 1
    ensures exists i, j | 0 <= i < j < |parameters| :: parameters[i] == parameters[j] == parameter
  {
    var n := |parameters| - 1;
    assert parameters == parameters[..n] + [parameters[n]];
    if parameters[n] == parameter {
      assert parameter in multiset(parameters[..n]);
      var i :| 0 <= i < n && parameters[..n][i] == parameter;
      assert parameters[i] == parameters[n] == parameter;
    } else {
      CountTwice(parameters[..n], parameter);
      var i, j :| 0 <= i < j < n && parameters[..n][i] == parameters[..n][j] == parameter;
      assert parameters[i] == parameters[j] == parameter;
    }
  }

  /** The same parameters in another order are accepted alike. */
  lemma {:induction false} OrderIsIrrelevant(parameters: seq<string>, others: seq<string>)
    requires multiset(parameters) == multiset(others) && Acceptable(parameters)
    ensures Acceptable(others)
  {
    hide Read;
    forall i | 0 <= i < |others| ensures Read(others[i]).Ok? {
      assert others[i] in multiset(others);
      assert others[i] in parameters;
    }
    forall i, j | 0 <= i < j < |others| ensures Apart(Read(others[i]).value.path, Read(others[j]).value.path) {
      assert others[i] in multiset(others) && others[j] in multiset(others);
      var a :| 0 <= a < |parameters| && parameters[a] == others[i];
      var b :| 0 <= b < |parameters| && parameters[b] == others[j];
      if others[i] == others[j] {
        TwiceCounts(others, i, j);
        CountTwice(parameters, others[i]);
      }
    }
  }

  lemma {:induction false} TwiceCounts(parameters: seq<string>, i: nat, j: nat)
    requires i < j < |parameters| && parameters[i] == parameters[j]
    ensures multiset(parameters)[parameters[i]] > 1
  {
    assert parameters == parameters[..j] + [parameters[j]] + parameters[j + 1..];
    assert parameters[..j][i] == parameters[i];
    assert parameters[i] in multiset(parameters[..j]);
  }
}
