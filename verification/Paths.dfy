/** Which account directory a name from outside reaches. */
module Paths {
  import opened Text
  import opened Registry

  lemma SplitSlash(a: string, b: string)
    requires '/' !in a && '/' !in b
    ensures Split(a + "/" + b, "/") == [a, b]
  {
    ContainsChar(a, '/');
    ContainsChar(b, '/');
    SplitAtFirst(a, "/", b);
  }

  function CleanStep(path: seq<string>, part: string): seq<string> {
    if part == "" || part == "." then path
    else if part != ".." then path + [part]
    else if path == [] then [] else path[..|path| - 1]
  }

  lemma CleanTwo(path: seq<string>, a: string, b: string)
    ensures CleanOnto(path, [a, b]) == CleanStep(CleanStep(path, a), b)
  {
    assert [a, b][1..] == [b] && [b][1..] == [];
    assert CleanOnto(CleanStep(path, a), [b]) == CleanOnto(CleanStep(CleanStep(path, a), b), []);
  }

  /** A name and a domain that are components reach their own directory. */
  lemma ComponentPlace(root: seq<string>, k: Key)
    requires Component(k.domain) && Component(k.name)
    ensures Place(root, k) == Some(k)
  {
    SplitSlash(k.domain, k.name);
    CleanTwo(root, k.domain, k.name);
    assert root + [k.domain] + [k.name] == root + [k.domain, k.name];
    assert (root + [k.domain, k.name])[..|root|] == root;
  }

  /** Without a slash, no other directory is reached. */
  lemma SlashlessPlace(root: seq<string>, k: Key)
    requires '/' !in k.domain && '/' !in k.name && Place(root, k).Some?
    ensures Place(root, k) == Some(k)
  {
    SplitSlash(k.domain, k.name);
    CleanTwo(root, k.domain, k.name);
    TwoLonger(root, k.domain, k.name);
  }

  lemma TwoLonger(root: seq<string>, a: string, b: string)
    requires |CleanStep(CleanStep(root, a), b)| == |root| + 2
    ensures CleanStep(CleanStep(root, a), b) == root + [a, b]
  {
    assert |CleanStep(root, a)| <= |root| + 1;
  }

  ghost predicate Pushed(path: seq<string>, n: nat) {
    forall i | n <= i < |path| :: Component(path[i])
  }

  lemma {:induction false} CleanPushes(path: seq<string>, parts: seq<string>, n: nat)
    requires Pushed(path, n) && forall i | 0 <= i < |parts| :: '/' !in parts[i]
    ensures Pushed(CleanOnto(path, parts), n)
    decreases |parts|
  {
    if parts != [] {
      CleanPushes(CleanStep(path, parts[0]), parts[1..], n);
    }
  }

  /** What is reached is named by components. */
  lemma PlaceIsClean(root: seq<string>, k: Key)
    requires Place(root, k).Some?
    ensures Component(Place(root, k).value.domain) && Component(Place(root, k).value.name)
  {
    var joined := k.domain + "/" + k.name;
    SplitPieces(joined, "/");
    forall i | 0 <= i < |Split(joined, "/")| ensures '/' !in Split(joined, "/")[i] {
      ContainsChar(Split(joined, "/")[i], '/');
    }
    CleanPushes(root, Split(joined, "/"), |root|);
  }

  /** A name under a plain domain reaches a directory of that very name exactly when it is one clean path component. */
  lemma OwnPlace(root: seq<string>, k: Key)
    requires Component(k.domain)
    ensures Place(root, k) == Some(k) <==> Component(k.name)
  {
    if Component(k.name) {
      ComponentPlace(root, k);
    } else if Place(root, k) == Some(k) {
      PlaceIsClean(root, k);
    }
  }

  lemma {:induction false} CleanConcat(path: seq<string>, a: seq<string>, b: seq<string>)
    ensures CleanOnto(path, a + b) == CleanOnto(CleanOnto(path, a), b)
    decreases |a|
  {
    if a == [] {
      assert a + b == b;
    } else {
      assert (a + b)[1..] == a[1..] + b;
      CleanConcat(CleanStep(path, a[0]), a[1..], b);
    }
  }

  /** A leading "./" makes another name for the same directory. */
  lemma DotPlace(root: seq<string>, k: Key)
    requires Component(k.domain) && Component(k.name)
    ensures Place(root, Key(k.domain, "./" + k.name)) == Some(k)
  {
    hide CleanOnto, Split;
    var dotted := "." + "/" + k.name;
    assert "./" + k.name == dotted;
    ContainsChar(k.domain, '/');
    SplitAtFirst(k.domain, "/", dotted);
    SplitSlash(".", k.name);
    assert [k.domain] + [".", k.name] == [k.domain, "."] + [k.name];
    CleanConcat(root, [k.domain, "."], [k.name]);
    CleanTwo(root, k.domain, ".");
    CleanOne(root + [k.domain], k.name);
    assert root + [k.domain] + [k.name] == root + [k.domain, k.name];
    assert (root + [k.domain, k.name])[..|root|] == root;
  }

  lemma CleanOne(path: seq<string>, a: string)
    ensures CleanOnto(path, [a]) == CleanStep(path, a)
  {
    assert [a][1..] == [];
    assert CleanOnto(CleanStep(path, a), []) == CleanStep(path, a);
  }
}
