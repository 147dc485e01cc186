/** Rooted paths as Go's `filepath` handles them: cleaning, joining and splitting. */
module Paths {
  import Text

  /** A path component that cleaning leaves alone. */
  predicate IsName(s: string) {
    s != "" && s != "." && s != ".." && '/' !in s
  }

  predicate AllNames(parts: seq<string>) {
    forall i :: 0 <= i < |parts| ==> IsName(parts[i])
  }

  function Render(parts: seq<string>): string {
    "/" + Text.Join(parts, '/')
  }

  /** Cleaning a rooted path component by component; `..` at the root is dropped. */
  function CleanParts(stack: seq<string>, parts: seq<string>): seq<string>
    decreases |parts|
  {
    if parts == [] then stack
    else if parts[0] == "" || parts[0] == "." then CleanParts(stack, parts[1..])
    else if parts[0] == ".." then CleanParts(if stack == [] then [] else stack[..|stack| - 1], parts[1..])
    else CleanParts(stack + [parts[0]], parts[1..])
  }

  /** The components of a path taken from the root. */
  function Parts(path: string): (parts: seq<string>)
    ensures AllNames(parts)
  {
    SplitParts(path);
    CleanPartsNames([], Text.Split(path, '/'));
    CleanParts([], Text.Split(path, '/'))
  }

  /** `filepath.Join("/", filepath.Clean(path))`. */
  function Clean(path: string): string {
    Render(Parts(path))
  }

  /** `filepath.Join(dir, name)` for a rooted `dir`. */
  function Join(dir: string, name: string): string {
    Clean(dir + "/" + name)
  }

  lemma {:induction false} SplitParts(s: string)
    ensures forall i :: 0 <= i < |Text.Split(s, '/')| ==> '/' !in Text.Split(s, '/')[i]
  {
    if s != "" {
      SplitParts(s[1..]);
    }
  }

  lemma {:induction false} CleanPartsNames(stack: seq<string>, parts: seq<string>)
    requires AllNames(stack) && forall i :: 0 <= i < |parts| ==> '/' !in parts[i]
    ensures AllNames(CleanParts(stack, parts))
    decreases |parts|
  {
    if parts != [] {
      var next := if parts[0] == "" || parts[0] == "." then stack
                  else if parts[0] == ".." then (if stack == [] then [] else stack[..|stack| - 1])
                  else stack + [parts[0]];
      CleanPartsNames(next, parts[1..]);
    }
  }

  lemma {:induction false} CleanPartsOfNames(stack: seq<string>, parts: seq<string>)
    requires AllNames(parts)
    ensures CleanParts(stack, parts) == stack + parts
    decreases |parts|
  {
    if parts != [] {
      CleanPartsOfNames(stack + [parts[0]], parts[1..]);
      assert stack + [parts[0]] + parts[1..] == stack + parts;
    }
  }

  /** Splitting a rendered path gives the empty component of the root, then the components. */
  lemma SplitRender(parts: seq<string>)
    requires AllNames(parts)
    ensures Text.Split(Render(parts), '/') == [""] + if parts == [] then [""] else parts
  {
    var tail := Text.Join(parts, '/');
    assert Render(parts) == "" + ['/'] + tail;
    Text.SplitCons("", '/', tail);
    if parts != [] {
      Text.SplitJoin(parts, '/');
    }
  }

  /** A rendered path is clean: its components come back. */
  lemma PartsRender(parts: seq<string>)
    requires AllNames(parts)
    ensures Parts(Render(parts)) == parts
  {
    SplitRender(parts);
    CleanPartsOfNames([], parts);
    var split := Text.Split(Render(parts), '/');
    assert split[1..] == if parts == [] then [""] else parts;
    assert CleanParts([], split) == CleanParts([], split[1..]);
    if parts == [] {
      assert split[1..][1..] == [];
    }
  }

  lemma {:induction false} JoinAppend(parts: seq<string>, name: string)
    requires parts != []
    ensures Text.Join(parts + [name], '/') == Text.Join(parts, '/') + "/" + name
  {
    assert (parts + [name])[1..] == parts[1..] + [name];
    if |parts| > 1 {
      JoinAppend(parts[1..], name);
    } else {
      assert parts[1..] + [name] == [name];
    }
  }

  /** Joining a name to a rendered path appends a component. */
  lemma JoinRender(parts: seq<string>, name: string)
    requires AllNames(parts) && IsName(name)
    ensures Join(Render(parts), name) == Render(parts + [name])
    ensures Parts(Join(Render(parts), name)) == parts + [name]
  {
    PartsRender(parts + [name]);
    if parts == [] {
      assert "/" + "/" + name == "" + ['/'] + ("" + ['/'] + name);
      Text.SplitCons("", '/', "" + ['/'] + name);
      Text.SplitCons("", '/', name);
      Text.SplitOne(name, '/');
      assert Text.Split("//" + name, '/') == ["", "", name];
      assert ["", "", name][1..][1..] == [name];
      CleanPartsOfNames([], [name]);
      assert Render([]) + "/" + name == "//" + name;
    } else {
      JoinAppend(parts, name);
      assert Render(parts) + "/" + name == Render(parts + [name]);
    }
  }

  lemma RenderGrows(parts: seq<string>, name: string)
    requires AllNames(parts) && IsName(name)
    ensures |Render(parts)| < |Render(parts + [name])|
  {
    if parts == [] {
      assert [name] == parts + [name];
    } else {
      JoinAppend(parts, name);
    }
  }

  lemma RenderInjective(a: seq<string>, b: seq<string>)
    requires AllNames(a) && AllNames(b) && Render(a) == Render(b)
    ensures a == b
  {
    PartsRender(a);
    PartsRender(b);
  }
}
