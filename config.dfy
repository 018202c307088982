/** The in-memory part of the configuration helpers: file names, template filling, flattening,
    key-path access on nested tables and the user-over-system merge. */
module Config {
  import opened Wrappers

  // ----- values held in a configuration -----

  /** A TOML leaf value; TOML floats are kept as exact reals and dates are not modelled. */
  datatype Atom = Null | Flag(flag: bool) | Integer(i: int) | Float(value: real) | Text(s: string)

  /** A configuration entry: a leaf, or a table of named entries (a Python dict). */
  datatype ConfigValue = Leaf(atom: Atom) | Table(entries: map<string, ConfigValue>)

  // ----- replace_file_extension -----

  /** Index of the last `c` in `s`, or -1 when there is none, like Python's `str.rfind`. */
  function RFind(s: string, c: char): (r: int)
    ensures -1 <= r < |s|
    ensures r == -1 ==> forall i | 0 <= i < |s| :: s[i] != c
    ensures r >= 0 ==> s[r] == c && forall i | r < i < |s| :: s[i] != c
  {
    if |s| == 0 then -1
    else if s[|s| - 1] == c then |s| - 1
    else RFind(s[..|s| - 1], c)
  }

  /** The last path component: what follows the last `/`. */
  function FileName(path: string): (r: string)
    ensures forall i | 0 <= i < |r| :: r[i] != '/'
    ensures (forall i | 0 <= i < |path| :: path[i] != '/') ==> r == path
  {
    path[RFind(path, '/') + 1..]
  }

  /** Position `i` of `name` starts its suffix: a dot that is neither the first nor the last
      character, with no dot after it. */
  predicate SuffixDot(name: string, i: int)
  {
    0 < i < |name| - 1 && name[i] == '.' && forall j | i < j < |name| :: name[j] != '.'
  }

  /** `pathlib`'s stem: the name without its final suffix. It is the whole name when the name
      has no suffix, and otherwise the part before the suffix's dot. */
  function Stem(name: string): (r: string)
    ensures |r| <= |name| && r == name[..|r|]
    ensures r == name || SuffixDot(name, |r|)
    ensures r == name <==> forall i | 0 <= i < |name| :: !SuffixDot(name, i)
  {
    var i := RFind(name, '.');
    if 0 < i < |name| - 1 then
      assert SuffixDot(name, i);
      name[..i]
    else
      assert forall k | 0 <= k < |name| :: !SuffixDot(name, k) by {
        forall k | 0 <= k < |name| && SuffixDot(name, k)
          ensures false
        {
        }
      }
      name
  }

  /** A name has at most one suffix dot. */
  lemma SuffixDotUnique(name: string, i: int, k: int)
    requires SuffixDot(name, i) && SuffixDot(name, k)
    ensures i == k
  {
  }

  /** The stem of `base.ext`, for an extension without dots, is `base`. */
  lemma StemOfDotted(base: string, ext: string)
    requires base != [] && ext != [] && forall i | 0 <= i < |ext| :: ext[i] != '.'
    ensures Stem(base + "." + ext) == base
  {
    var name := base + "." + ext;
    assert SuffixDot(name, |base|) by {
      forall j | |base| < j < |name|
        ensures name[j] != '.'
      {
        assert name[j] == ext[j - |base| - 1];
      }
    }
    var r := Stem(name);
    SuffixDotUnique(name, |r|, |base|);
    assert name[..|base|] == base;
  }

  /** `replace_file_extension(filename, ext)`: the stem of the file name followed by `.ext`;
      a leading dot on `ext` is dropped, and an empty `ext` cannot be indexed. */
  function ReplaceFileExtension(filename: string, ext: string): (r: Result<string>)
    ensures ext == [] <==> r == Err(IndexError)
    ensures r.Ok? ==> r.value == Stem(FileName(filename)) + "." + (if ext[0] == '.' then ext[1..] else ext)
  {
    if ext == [] then Err(IndexError)
    else
      var e := if ext[0] == '.' then ext[1..] else ext;
      Ok(Stem(FileName(filename)) + "." + e)
  }

  predicate NoDotOrSlash(s: string)
  {
    forall i | 0 <= i < |s| :: s[i] != '.' && s[i] != '/'
  }

  /** A name with an extension gets the new extension instead of the old one. */
  lemma ReplacesExtension(base: string, oldExt: string, ext: string)
    requires base != [] && oldExt != [] && ext != [] && ext[0] != '.'
    requires NoDotOrSlash(base) && NoDotOrSlash(oldExt)
    ensures ReplaceFileExtension(base + "." + oldExt, ext) == Ok(base + "." + ext)
    ensures ReplaceFileExtension(base + "." + oldExt, "." + ext) == Ok(base + "." + ext)
  {
    var name := base + "." + oldExt;
    assert forall i | 0 <= i < |name| :: name[i] != '/';
    StemOfDotted(base, oldExt);
    assert ("." + ext)[1..] == ext;
  }

  /** A name without an extension gets one appended. */
  lemma AppendsExtension(base: string, ext: string)
    requires base != [] && ext != [] && ext[0] != '.'
    requires NoDotOrSlash(base)
    ensures ReplaceFileExtension(base, ext) == Ok(base + "." + ext)
  {
    assert forall i | 0 <= i < |base| :: !SuffixDot(base, i);
  }

  /** The leading dot of the extension is optional. */
  lemma DotIsOptional(filename: string, ext: string)
    requires ext != [] && ext[0] != '.'
    ensures ReplaceFileExtension(filename, "." + ext) == ReplaceFileExtension(filename, ext)
  {
    assert ("." + ext)[1..] == ext;
  }

  /** Replacing again with the same extension changes nothing, as long as the stem is not empty
      and the extension is a plain one. */
  lemma ReplaceIdempotent(filename: string, ext: string)
    requires ext != [] && ext[0] != '.' && NoDotOrSlash(ext)
    requires Stem(FileName(filename)) != []
    ensures ReplaceFileExtension(ReplaceFileExtension(filename, ext).value, ext)
            == ReplaceFileExtension(filename, ext)
  {
    var stem := Stem(FileName(filename));
    var out := stem + "." + ext;
    assert forall i | 0 <= i < |out| :: out[i] != '/';
    StemOfDotted(stem, ext);
  }

  // ----- check_config -----

  /** A Python dict that `check_config` completes in place. */
  class ConfigDict {
    var entries: map<string, ConfigValue>

    constructor (m: map<string, ConfigValue>)
      ensures entries == m
    {
      entries := m;
    }
  }

  /** The dict `cfg` once every template key it lacks has been copied in: it keeps every
      existing entry, gains exactly the template's missing keys, and takes their values from
      the template. */
  function Filled(template: map<string, ConfigValue>, cfg: map<string, ConfigValue>): (r: map<string, ConfigValue>)
    ensures r.Keys == template.Keys + cfg.Keys
    ensures forall k | k in cfg :: r[k] == cfg[k]
    ensures forall k | k in template && k !in cfg :: r[k] == template[k]
  {
    map k | k in template.Keys + cfg.Keys :: if k in cfg then cfg[k] else template[k]
  }

  /** The template restricted to the keys already visited. */
  function Restrict(template: map<string, ConfigValue>, keys: set<string>): map<string, ConfigValue>
  {
    map k | k in template && k in keys :: template[k]
  }

  /** Nothing changes exactly when every template key is already present. */
  lemma FilledUnchangedIff(template: map<string, ConfigValue>, cfg: map<string, ConfigValue>)
    ensures Filled(template, cfg) == cfg <==> template.Keys <= cfg.Keys
  {
    if template.Keys <= cfg.Keys {
      assert Filled(template, cfg).Keys == cfg.Keys;
    } else {
      var k :| k in template && k !in cfg;
      assert k in Filled(template, cfg);
    }
  }

  /** Filling twice is filling once. */
  lemma FilledIdempotent(template: map<string, ConfigValue>, cfg: map<string, ConfigValue>)
    ensures Filled(template, Filled(template, cfg)) == Filled(template, cfg)
  {
    FilledUnchangedIff(template, Filled(template, cfg));
  }

  /** `check_config(template, cfg)`: adds to `cfg` every key of `template` it lacks, with the
      template's value, and reports whether it added any. */
  method CheckConfig(template: ConfigDict, cfg: ConfigDict) returns (changed: bool)
    modifies cfg
    ensures cfg.entries == Filled(old(template.entries), old(cfg.entries))
    ensures changed <==> !(old(template.entries).Keys <= old(cfg.entries).Keys)
    ensures template.entries == old(template.entries)
  {
    var t := template.entries;
    ghost var start := cfg.entries;
    var todo := t.Keys;
    ghost var done: set<string> := {};
    changed := false;
    while todo != {}
      invariant todo + done == t.Keys && todo !! done
      invariant cfg.entries == Filled(Restrict(t, done), start)
      invariant changed <==> exists k | k in done :: k !in start
      decreases todo
    {
      var k :| k in todo;
      if k !in cfg.entries {
        cfg.entries := cfg.entries[k := t[k]];
        changed := true;
      }
      todo := todo - {k};
      done := done + {k};
    }
    assert Restrict(t, done) == t;
    if template == cfg {
      FilledUnchangedIff(t, start);
    }
  }

  /** The test's case: `{'status': None}` gains `'name'` from the template and keeps its own
      `status`. */
  lemma CheckConfigExample()
    ensures Filled(map["name" := Leaf(Text("test")), "status" := Leaf(Flag(true))], map["status" := Leaf(Null)])
            == map["status" := Leaf(Null), "name" := Leaf(Text("test"))]
    ensures Filled(map["name" := Leaf(Text("test")), "status" := Leaf(Flag(true))],
                   map["name" := Leaf(Text("test_2")), "status" := Leaf(Flag(false))])
            == map["name" := Leaf(Text("test_2")), "status" := Leaf(Flag(false))]
  {
    var t := map["name" := Leaf(Text("test")), "status" := Leaf(Flag(true))];
    assert Filled(t, map["status" := Leaf(Null)]).Keys == {"status", "name"};
    FilledUnchangedIff(t, map["name" := Leaf(Text("test_2")), "status" := Leaf(Flag(false))]);
  }

  // ----- recursive_iterable_flattening -----

  /** An element of an iterable handed to the flattener: an atom (strings included) or a
      nested iterable. */
  datatype Item = Single(atom: Atom) | Nested(items: seq<Item>)

  /** `recursive_iterable_flattening`: the atoms of `xs`, depth first, in order; strings are
      not taken apart. */
  function Flatten(xs: seq<Item>): (r: seq<Atom>)
    ensures forall atoms | xs == Lift(atoms) :: r == atoms
    decreases xs
  {
    if xs == [] then []
    else
      assert forall atoms | xs == Lift(atoms) :: xs[1..] == Lift(atoms[1..]);
      (match xs[0]
       case Single(a) => [a]
       case Nested(ys) => Flatten(ys)) + Flatten(xs[1..])
  }

  /** The flat sequence with every atom as its own item. */
  function Lift(atoms: seq<Atom>): (r: seq<Item>)
    ensures |r| == |atoms|
    ensures forall i | 0 <= i < |r| :: r[i] == Single(atoms[i])
  {
    if atoms == [] then [] else [Single(atoms[0])] + Lift(atoms[1..])
  }

  /** Flattening a concatenation concatenates the flattenings. */
  lemma {:induction false} FlattenAppend(xs: seq<Item>, ys: seq<Item>)
    ensures Flatten(xs + ys) == Flatten(xs) + Flatten(ys)
    decreases xs
  {
    if xs == [] {
      assert xs + ys == ys;
    } else {
      assert (xs + ys)[0] == xs[0];
      assert (xs + ys)[1..] == xs[1..] + ys;
      FlattenAppend(xs[1..], ys);
    }
  }

  /** Flattening twice is flattening once. */
  lemma FlattenIdempotent(xs: seq<Item>)
    ensures Flatten(Lift(Flatten(xs))) == Flatten(xs)
  {
  }

  /** Wrapping a list in another list does not change its flattening. */
  lemma FlattenNested(xs: seq<Item>)
    ensures Flatten([Nested(xs)]) == Flatten(xs)
  {
    assert [Nested(xs)][1..] == [];
  }

  /** The test's case: `[1, 3, ['klm', 4], 'poi', [1, [[1, 2], 'uio']]]`. */
  lemma FlattenExample(head: seq<Item>, tail: seq<Item>)
    requires head == [Single(Integer(1)), Single(Integer(3)),
                      Nested([Single(Text("klm")), Single(Integer(4))]),
                      Single(Text("poi"))]
    requires tail == [Nested([Single(Integer(1)),
                              Nested([Nested([Single(Integer(1)), Single(Integer(2))]), Single(Text("uio"))])])]
    ensures Flatten(head + tail)
            == [Integer(1), Integer(3), Text("klm"), Integer(4), Text("poi"),
                Integer(1), Integer(1), Integer(2), Text("uio")]
  {
    FlattenExampleHead(head);
    FlattenExampleTail(tail);
    FlattenAppend(head, tail);
  }

  lemma FlattenExampleHead(head: seq<Item>)
    requires head == [Single(Integer(1)), Single(Integer(3)),
                      Nested([Single(Text("klm")), Single(Integer(4))]),
                      Single(Text("poi"))]
    ensures Flatten(head) == [Integer(1), Integer(3), Text("klm"), Integer(4), Text("poi")]
  {
    var p1 := [Single(Integer(1)), Single(Integer(3))];
    var p2 := [Nested([Single(Text("klm")), Single(Integer(4))]), Single(Text("poi"))];
    assert Flatten(p1) == [Integer(1), Integer(3)];
    assert Flatten(p2) == [Text("klm"), Integer(4), Text("poi")];
    FlattenAppend(p1, p2);
    assert head == p1 + p2;
  }

  lemma FlattenExampleTail(tail: seq<Item>)
    requires tail == [Nested([Single(Integer(1)),
                              Nested([Nested([Single(Integer(1)), Single(Integer(2))]), Single(Text("uio"))])])]
    ensures Flatten(tail) == [Integer(1), Integer(1), Integer(2), Text("uio")]
  {
    var inner := [Nested([Single(Integer(1)), Single(Integer(2))]), Single(Text("uio"))];
    assert Flatten(inner) == [Integer(1), Integer(2), Text("uio")];
    var last := [Single(Integer(1)), Nested(inner)];
    FlattenNested(inner);
    assert last == [Single(Integer(1))] + [Nested(inner)];
    FlattenAppend([Single(Integer(1))], [Nested(inner)]);
    FlattenNested(last);
  }

  // ----- key-path access -----

  /** One subscript: a table yields the entry under `key`; a leaf cannot be subscripted. */
  function Step(v: ConfigValue, key: string): (r: Result<ConfigValue>)
    ensures r.Ok? <==> v.Table? && key in v.entries
    ensures r.Ok? ==> r.value == v.entries[key]
    ensures v.Table? && key !in v.entries ==> r == Err(KeyError(key))
    ensures v.Leaf? ==> r == Err(TypeError)
  {
    match v
    case Leaf(_) => Err(TypeError)
    case Table(m) => if key in m then Ok(m[key]) else Err(KeyError(key))
  }

  /** Successive subscripts along `path`, starting from `v`. A walk only fails on a missing
      key, which is one of the path's keys, or on subscripting a leaf. */
  function Walk(v: ConfigValue, path: seq<string>): (r: Result<ConfigValue>)
    ensures r.Err? ==> (r.error.KeyError? && r.error.key in path) || r.error == TypeError
    decreases path
  {
    if path == [] then Ok(v)
    else
      var child :- Step(v, path[0]);
      Walk(child, path[1..])
  }

  /** `config(*path)` and `config[path]` on the table `tree`: the first key is required. */
  function Lookup(tree: map<string, ConfigValue>, path: seq<string>): (r: Result<ConfigValue>)
    ensures path == [] ==> r == Err(IndexError)
  {
    if path == [] then Err(IndexError) else Walk(Table(tree), path)
  }

  /** Looking up a longer path continues from where the shorter one ended. */
  lemma {:induction false} WalkAppend(v: ConfigValue, p: seq<string>, q: seq<string>)
    ensures Walk(v, p + q) == (if Walk(v, p).Ok? then Walk(Walk(v, p).value, q) else Walk(v, p))
    decreases p
  {
    if p == [] {
      assert p + q == q;
    } else {
      assert (p + q)[0] == p[0] && (p + q)[1..] == p[1..] + q;
      if Step(v, p[0]).Ok? {
        WalkAppend(Step(v, p[0]).value, p[1..], q);
      }
    }
  }

  /** `config[a, b] == config[a][b]`: a tuple path equals the chained subscripts. */
  lemma TuplePathIsChained(tree: map<string, ConfigValue>, a: string, b: string)
    ensures Lookup(tree, [a, b]) == (if Lookup(tree, [a]).Ok? then Step(Lookup(tree, [a]).value, b)
                                     else Lookup(tree, [a]))
  {
    WalkAppend(Table(tree), [a], [b]);
    assert [a] + [b] == [a, b];
  }

  /** The tree after `v[path] = x`, walking every key but the last and then assigning. */
  function Assign(v: ConfigValue, path: seq<string>, x: ConfigValue): (r: Result<ConfigValue>)
    requires path != []
    ensures v.Leaf? ==> r == Err(TypeError)
    ensures r.Ok? ==> v.Table? && r.value.Table? && r.value.entries.Keys == v.entries.Keys + {path[0]}
    ensures r.Err? ==> (r.error.KeyError? && r.error.key in path) || r.error == TypeError
    decreases path
  {
    match v
    case Leaf(_) => Err(TypeError)
    case Table(m) =>
      if |path| == 1 then Ok(Table(m[path[0] := x]))
      else if path[0] !in m then Err(KeyError(path[0]))
      else
        var sub :- Assign(m[path[0]], path[1..], x);
        Ok(Table(m[path[0] := sub]))
  }

  /** An assignment succeeds exactly when everything but the last key leads to a table. */
  lemma {:induction false} AssignOkIff(v: ConfigValue, path: seq<string>, x: ConfigValue)
    requires path != []
    ensures Assign(v, path, x).Ok? <==>
              Walk(v, path[..|path| - 1]).Ok? && Walk(v, path[..|path| - 1]).value.Table?
    decreases path
  {
    if |path| > 1 && v.Table? && path[0] in v.entries {
      AssignOkIff(v.entries[path[0]], path[1..], x);
      assert path[1..][..|path[1..]| - 1] == path[..|path| - 1][1..];
    }
  }

  /** After `v[path] = x`, reading `path` gives `x`. */
  lemma {:induction false} GetAfterSet(v: ConfigValue, path: seq<string>, x: ConfigValue)
    requires path != [] && Assign(v, path, x).Ok?
    ensures Walk(Assign(v, path, x).value, path) == Ok(x)
    decreases path
  {
    if |path| > 1 {
      GetAfterSet(v.entries[path[0]], path[1..], x);
    }
  }

  /** `v[path] = x` leaves every path that parts from `path` before its end as it was. */
  lemma {:induction false} SetLeavesOthers(v: ConfigValue, path: seq<string>, x: ConfigValue, q: seq<string>, i: nat)
    requires path != [] && Assign(v, path, x).Ok?
    requires i < |path| && i < |q| && path[..i] == q[..i] && path[i] != q[i]
    ensures Walk(Assign(v, path, x).value, q) == Walk(v, q)
    decreases path
  {
    if i > 0 {
      assert path[0] == path[..i][0] == q[..i][0] == q[0];
      assert path[1..][..i - 1] == path[..i][1..] && q[1..][..i - 1] == q[..i][1..];
      SetLeavesOthers(v.entries[path[0]], path[1..], x, q[1..], i - 1);
    }
  }

  /** `config[path] = x` on the table `tree`: the whole tree when it succeeds. */
  function SetPath(tree: map<string, ConfigValue>, path: seq<string>, x: ConfigValue): (r: Result<map<string, ConfigValue>>)
    ensures path == [] ==> r == Err(IndexError)
  {
    if path == [] then Err(IndexError)
    else
      var t :- Assign(Table(tree), path, x);
      Ok(t.entries)
  }

  lemma SetThenLookup(tree: map<string, ConfigValue>, path: seq<string>, x: ConfigValue)
    requires SetPath(tree, path, x).Ok?
    ensures Lookup(SetPath(tree, path, x).value, path) == Ok(x)
  {
    GetAfterSet(Table(tree), path, x);
  }

  /** The test's case: after `config['style', 'darkstyle'] = 'bright'`, `config('style',
      'darkstyle')` is `'bright'`, whenever `style` is a table. */
  lemma SetItemExample(tree: map<string, ConfigValue>)
    requires "style" in tree && tree["style"].Table?
    ensures SetPath(tree, ["style", "darkstyle"], Leaf(Text("bright"))).Ok?
    ensures Lookup(SetPath(tree, ["style", "darkstyle"], Leaf(Text("bright"))).value, ["style", "darkstyle"])
            == Ok(Leaf(Text("bright")))
  {
    AssignOkIff(Table(tree), ["style", "darkstyle"], Leaf(Text("bright")));
    assert ["style", "darkstyle"][..1] == ["style"];
    SetThenLookup(tree, ["style", "darkstyle"], Leaf(Text("bright")));
  }

  /** BaseConfig: the loaded configuration, read with key paths and updated by assignment. */
  class BaseConfig {
    var tree: map<string, ConfigValue>

    constructor (loaded: map<string, ConfigValue>)
      ensures tree == loaded
    {
      tree := loaded;
    }

    /** `config(*path)`: the first key, then one subscript per remaining key. */
    method Call(path: seq<string>) returns (r: Result<ConfigValue>)
      ensures r == Lookup(tree, path)
    {
      if path == [] {
        return Err(IndexError);
      }
      var cur := Step(Table(tree), path[0]);
      var i := 1;
      while i < |path| && cur.Ok?
        invariant 1 <= i <= |path|
        invariant Walk(Table(tree), path) == (if cur.Ok? then Walk(cur.value, path[i..]) else cur)
        decreases |path| - i
      {
        assert path[i..][0] == path[i] && path[i..][1..] == path[i + 1..];
        cur := Step(cur.value, path[i]);
        i := i + 1;
      }
      if cur.Ok? {
        assert path[i..] == [];
      }
      return cur;
    }

    /** `config[key]` with a single key. */
    method GetItem(key: string) returns (r: Result<ConfigValue>)
      ensures key in tree ==> r == Ok(tree[key])
      ensures key !in tree ==> r == Err(KeyError(key))
    {
      if key !in tree {
        return Err(KeyError(key));
      }
      return Ok(tree[key]);
    }

    /** `config[path] = x`: on success the tree is the assigned one; on failure it is left as
        it was. */
    method SetItem(path: seq<string>, x: ConfigValue) returns (o: Outcome)
      modifies this
      ensures SetPath(old(tree), path, x).Ok? ==> o == Pass && tree == SetPath(old(tree), path, x).value
      ensures SetPath(old(tree), path, x).Err? ==>
                o == Fail(SetPath(old(tree), path, x).error) && tree == old(tree)
    {
      var r := SetPath(tree, path, x);
      if r.Err? {
        return Fail(r.error);
      }
      tree := r.value;
      return Pass;
    }
  }

  // ----- user configuration over the system one -----

  /** The system configuration updated from the user's: tables present on both sides are merged
      key by key, and anywhere else the user's entry wins. */
  function Merge(system: ConfigValue, user: ConfigValue): (r: ConfigValue)
    ensures r.Table? <==> user.Table?
    ensures user.Leaf? || system.Leaf? ==> r == user
    decreases system
  {
    if system.Table? && user.Table? then
      Table(map k | k in system.entries.Keys + user.entries.Keys ::
              if k in system.entries && k in user.entries then Merge(system.entries[k], user.entries[k])
              else if k in user.entries then user.entries[k]
              else system.entries[k])
    else user
  }

  /** Merging keeps every key of the two tables. */
  lemma MergeKeys(system: ConfigValue, user: ConfigValue)
    requires system.Table? && user.Table?
    ensures Merge(system, user).Table?
    ensures Merge(system, user).entries.Keys == system.entries.Keys + user.entries.Keys
  {
  }

  /** A leaf the user sets is the value the merged configuration holds at that path. */
  lemma {:induction false} UserLeafWins(system: ConfigValue, user: ConfigValue, path: seq<string>)
    requires Walk(user, path).Ok? && Walk(user, path).value.Leaf?
    ensures Walk(Merge(system, user), path) == Walk(user, path)
    decreases path
  {
    if path != [] {
      var k := path[0];
      if system.Table? && k in system.entries {
        UserLeafWins(system.entries[k], user.entries[k], path[1..]);
      }
    }
  }

  /** The user configuration says nothing about `path`: along it, some key is missing from the
      user's tables before the path ends. */
  predicate Silent(user: ConfigValue, path: seq<string>)
    decreases path
  {
    path != [] && user.Table? && (path[0] !in user.entries || Silent(user.entries[path[0]], path[1..]))
  }

  /** Where the user is silent, the system value survives the merge. */
  lemma {:induction false} SystemKept(system: ConfigValue, user: ConfigValue, path: seq<string>)
    requires Silent(user, path) && Walk(system, path).Ok?
    ensures Walk(Merge(system, user), path) == Walk(system, path)
    decreases path
  {
    var k := path[0];
    if k in user.entries {
      SystemKept(system.entries[k], user.entries[k], path[1..]);
    }
  }

  /** An empty user table leaves the system configuration as it is. */
  lemma MergeEmptyUser(system: map<string, ConfigValue>)
    ensures Merge(Table(system), Table(map[])) == Table(system)
  {
  }

  lemma {:induction false} MergeSelf(v: ConfigValue)
    ensures Merge(v, v) == v
    decreases v
  {
    if v.Table? {
      forall k | k in v.entries
        ensures Merge(v.entries[k], v.entries[k]) == v.entries[k]
      {
        MergeSelf(v.entries[k]);
      }
      assert Merge(v, v).entries == v.entries;
    }
  }

  /** Applying the same user configuration twice is applying it once. */
  lemma {:induction false} MergeIdempotent(system: ConfigValue, user: ConfigValue)
    ensures Merge(Merge(system, user), user) == Merge(system, user)
    decreases system
  {
    var m := Merge(system, user);
    if system.Table? && user.Table? {
      forall k | k in m.entries && k in user.entries
        ensures Merge(m.entries[k], user.entries[k]) == m.entries[k]
      {
        if k in system.entries {
          MergeIdempotent(system.entries[k], user.entries[k]);
        } else {
          MergeSelf(user.entries[k]);
        }
      }
      assert Merge(m, user).entries == m.entries;
    } else {
      MergeSelf(user);
    }
  }

  /** The test's case: the user sets only `scan.scan1d.start`; the merged configuration holds
      the user's `start` and still has the system's `stop`. */
  lemma NestedUpdateExample(system: ConfigValue, user: ConfigValue)
    requires system == Table(map["scan" := Table(map["scan1d" := Table(map["start" := Leaf(Float(0.0)),
                                                                            "stop" := Leaf(Integer(5))])])])
    requires user == Table(map["scan" := Table(map["scan1d" := Table(map["start" := Leaf(Float(23.0))])])])
    ensures Walk(Merge(system, user), ["scan", "scan1d", "start"]) == Ok(Leaf(Float(23.0)))
    ensures Walk(Merge(system, user), ["scan", "scan1d", "stop"]) == Ok(Leaf(Integer(5)))
  {
    var start := ["scan", "scan1d", "start"];
    var stop := ["scan", "scan1d", "stop"];
    assert Walk(user, start) == Ok(Leaf(Float(23.0)));
    UserLeafWins(system, user, start);
    assert Silent(user, stop);
    assert Walk(system, stop) == Ok(Leaf(Integer(5)));
    SystemKept(system, user, stop);
  }
}
