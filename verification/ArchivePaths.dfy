/**
  Where an archive is stored and how stored archives are found again: the path of an archive, the
  pattern that List applies to every stored file, and the walk over the store
  (pkg/adapter/archive/file/zipFileArchiveRepository.go:143-221).
 */
module ArchivePaths {
  import opened Collections
  import opened Domain
  import WorkTree

  // ---------- rooted paths, joined and cleaned as path/filepath does ----------

  /** The elements between the slashes. */
  function Split(s: string): (parts: seq<string>)
    ensures |parts| > 0
    ensures forall p :: p in parts ==> '/' !in p
  {
    if s == "" then [""]
    else if s[0] == '/' then [""] + Split(s[1..])
    else
      var rest := Split(s[1..]);
      [[s[0]] + rest[0]] + rest[1..]
  }

  function Push(stack: seq<string>, part: string): seq<string> {
    if part == "" || part == "." then stack
    else if part != ".." then stack + [part]
    else if stack == [] then []
    else stack[..|stack| - 1]
  }

  /** Follows the elements of a path, starting in the directory `stack`. */
  function Resolve(stack: seq<string>, parts: seq<string>): seq<string>
    decreases |parts|
  {
    if parts == [] then stack else Resolve(Push(stack, parts[0]), parts[1..])
  }

  function Slashed(parts: seq<string>): string {
    if parts == [] then "" else "/" + parts[0] + Slashed(parts[1..])
  }

  function Rendered(stack: seq<string>): string {
    if stack == [] then "/" else Slashed(stack)
  }

  predicate Rooted(path: string) {
    path != "" && path[0] == '/'
  }

  function Clean(path: string): string
    requires Rooted(path)
  {
    Rendered(Resolve([], Split(path)))
  }

  /** Joins non-empty elements to a rooted path. */
  function Glued(base: string, elems: seq<string>): (path: string)
    requires Rooted(base)
    ensures Rooted(path)
    decreases |elems|
  {
    if elems == [] then base
    else Glued(if elems[0] == "" then base else base + "/" + elems[0], elems[1..])
  }

  function Join(base: string, elems: seq<string>): string
    requires Rooted(base)
  {
    Clean(Glued(base, elems))
  }

  /** An element that a cleaned path keeps. */
  predicate Plain(part: string) {
    part != "" && part != "." && part != ".." && '/' !in part
  }

  ghost predicate AllPlain(parts: seq<string>) {
    forall p :: p in parts ==> Plain(p)
  }

  /** The directory of all archives, as its elements: cleaned and not the file system's root. */
  ghost predicate ArchivesRoot(root: seq<string>) {
    root != [] && AllPlain(root)
  }

  /** getArchivePath */
  function ArchivePath(root: seq<string>, id: SupportArchiveID): string
    requires root != []
  {
    Join(Slashed(root), [id.namespace, id.name]) + ".zip"
  }

  /** The file that Delete removes. */
  function DeletedPath(root: seq<string>, id: SupportArchiveID): string
    requires root != []
  {
    var namespaceDir := Join(Slashed(root), [id.namespace]);
    assert Rooted(namespaceDir);
    Join(namespaceDir, [id.name]) + ".zip"
  }

  lemma {:induction false} SplitJoined(a: string, b: string)
    ensures Split(a + "/" + b) == Split(a) + Split(b)
  {
    if a == "" {
      assert a + "/" + b == "/" + b;
      assert ("/" + b)[1..] == b;
    } else {
      assert (a + "/" + b)[1..] == a[1..] + "/" + b;
      SplitJoined(a[1..], b);
    }
  }

  lemma {:induction false} SplitPlain(s: string)
    requires '/' !in s
    ensures Split(s) == [s]
  {
    if s != "" {
      assert s[0] in s;
      SplitPlain(s[1..]);
      assert [s[0]] + s[1..] == s;
    }
  }

  lemma {:induction false} ResolveJoined(stack: seq<string>, a: seq<string>, b: seq<string>)
    ensures Resolve(stack, a + b) == Resolve(Resolve(stack, a), b)
    decreases |a|
  {
    if a == [] {
      assert a + b == b;
    } else {
      assert (a + b)[1..] == a[1..] + b;
      ResolveJoined(Push(stack, a[0]), a[1..], b);
    }
  }

  lemma ResolveOne(stack: seq<string>, part: string)
    ensures Resolve(stack, [part]) == Push(stack, part)
  {
  }

  lemma {:induction false} ResolvesToPlain(stack: seq<string>, parts: seq<string>)
    requires AllPlain(stack)
    requires forall p :: p in parts ==> '/' !in p
    ensures AllPlain(Resolve(stack, parts))
    decreases |parts|
  {
    if parts != [] {
      assert parts[0] in parts;
      ResolvesToPlain(Push(stack, parts[0]), parts[1..]);
    }
  }

  lemma {:induction false} SlashedJoined(a: seq<string>, b: seq<string>)
    ensures Slashed(a + b) == Slashed(a) + Slashed(b)
  {
    if a == [] {
      assert a + b == b;
    } else {
      assert (a + b)[1..] == a[1..] + b;
      SlashedJoined(a[1..], b);
    }
  }

  lemma SlashedSnoc(front: seq<string>, last: string)
    ensures Slashed(front + [last]) == Slashed(front) + "/" + last
  {
    SlashedJoined(front, [last]);
    assert Slashed([last]) == "/" + last + Slashed([]);
  }

  lemma {:induction false} SplitSlashed(parts: seq<string>, last: string)
    requires forall p :: p in parts ==> '/' !in p
    requires '/' !in last
    ensures Split(Slashed(parts) + "/" + last) == [""] + parts + [last]
  {
    SplitJoined(Slashed(parts), last);
    SplitPlain(last);
    if parts != [] {
      var front, p := parts[..|parts| - 1], parts[|parts| - 1];
      assert parts == front + [p];
      SplitSlashed(front, p);
      SlashedSnoc(front, p);
    }
  }

  lemma {:induction false} ResolvePlain(stack: seq<string>, parts: seq<string>)
    requires AllPlain(parts)
    ensures Resolve(stack, parts) == stack + parts
    decreases |parts|
  {
    if parts != [] {
      assert parts[0] in parts;
      ResolvePlain(stack + [parts[0]], parts[1..]);
      assert stack + [parts[0]] + parts[1..] == stack + parts;
    }
  }

  lemma SplitRendered(stack: seq<string>)
    requires stack != [] && AllPlain(stack)
    ensures Split(Slashed(stack)) == [""] + stack
  {
    var front, last := stack[..|stack| - 1], stack[|stack| - 1];
    assert stack == front + [last];
    assert forall p :: p in front ==> p in stack;
    assert last in stack;
    SlashedSnoc(front, last);
    SplitSlashed(front, last);
  }

  /** A cleaned path leads where it was rendered from. */
  lemma RenderedLeads(stack: seq<string>)
    requires AllPlain(stack)
    ensures Resolve([], Split(Rendered(stack))) == stack
  {
    ResolveOne([], "");
    if stack == [] {
      assert Split("/")[1..] == Split("");
      assert Split("/") == [""] + [""];
      ResolveJoined([], [""], [""]);
    } else {
      SplitRendered(stack);
      ResolveJoined([], [""], stack);
      ResolvePlain([], stack);
    }
  }

  lemma GluedLeads(base: string, elem: string)
    requires Rooted(base)
    ensures Resolve([], Split(Glued(base, [elem]))) == Resolve(Resolve([], Split(base)), Split(elem))
  {
    var glued := if elem == "" then base else base + "/" + elem;
    assert Glued(base, [elem]) == Glued(glued, []);
    if elem == "" {
      ResolveOne(Resolve([], Split(base)), "");
    } else {
      SplitJoined(base, elem);
      ResolveJoined([], Split(base), Split(elem));
    }
  }

  /** The directory elements that an archive's path resolves to, before the suffix. */
  function Location(root: seq<string>, id: SupportArchiveID): seq<string> {
    Resolve(Resolve(root, Split(id.namespace)), Split(id.name))
  }

  lemma LocationIsPlain(root: seq<string>, id: SupportArchiveID)
    requires ArchivesRoot(root)
    ensures AllPlain(Location(root, id))
  {
    ResolvesToPlain(root, Split(id.namespace));
    ResolvesToPlain(Resolve(root, Split(id.namespace)), Split(id.name));
  }

  /** An archive's path is the root, followed by the namespace, followed by the name, step by step. */
  lemma PathIsLocation(root: seq<string>, id: SupportArchiveID)
    requires ArchivesRoot(root)
    ensures ArchivePath(root, id) == Rendered(Location(root, id)) + ".zip"
  {
    var base := Slashed(root);
    var inner := Glued(base, [id.namespace]);
    RenderedLeads(root);
    GluedLeads(base, id.namespace);
    GluedLeads(inner, id.name);
    assert [id.namespace, id.name][1..] == [id.name];
    assert Glued(base, [id.namespace, id.name]) == Glued(inner, [id.name]);
  }

  /** Delete removes the very file that Create wrote and Exists looks for, whatever the id. */
  lemma DeletesWhatWasCreated(root: seq<string>, id: SupportArchiveID)
    requires ArchivesRoot(root)
    ensures DeletedPath(root, id) == ArchivePath(root, id)
  {
    var base := Slashed(root);
    PathIsLocation(root, id);
    RenderedLeads(root);
    GluedLeads(base, id.namespace);
    ResolvesToPlain(root, Split(id.namespace));
    var namespaceDir := Join(base, [id.namespace]);
    RenderedLeads(Resolve(root, Split(id.namespace)));
    GluedLeads(namespaceDir, id.name);
  }

  // ---------- the pattern that List applies ----------

  /** An id that the pattern can deliver and that stays where it is in a path. */
  predicate Listable(id: SupportArchiveID) {
    Plain(id.namespace) && id.name != "" && '/' !in id.name && '.' !in id.name
  }

  /** The pattern matches at the front of `text`, with these groups. */
  predicate Matches(prefix: string, text: string, id: SupportArchiveID) {
    && prefix + "/" + id.namespace + "/" + id.name + ".zip" <= text
    && id.namespace != "" && '/' !in id.namespace
    && id.name != "" && '/' !in id.name && '.' !in id.name
  }

  /** The length of the longest front without the given characters. */
  function Run(s: string, stop: set<char>): (n: nat)
    ensures n <= |s|
    ensures forall c :: c in s[..n] ==> c !in stop
    ensures n < |s| ==> s[n] in stop
  {
    if s == "" || s[0] in stop then 0
    else
      var n := Run(s[1..], stop);
      assert s[..1 + n] == [s[0]] + s[1..][..n];
      1 + n
  }

  /** Matches the file name, behind a namespace. */
  function ParseName(namespace: string, file: string): Option<SupportArchiveID> {
    var m := Run(file, {'/', '.'});
    if m == 0 || !(".zip" <= file[m..]) then None else Some(SupportArchiveID(namespace, file[..m]))
  }

  /** Matches the namespace, a slash and the file name. */
  function ParseGroups(groups: string): Option<SupportArchiveID> {
    var n := Run(groups, {'/'});
    if n == 0 || n == |groups| then None else ParseName(groups[..n], groups[n + 1..])
  }

  /** What the pattern matches at the front of `text`, each group taking as much as it can. */
  function Parse(prefix: string, text: string): Option<SupportArchiveID> {
    if prefix + "/" <= text then ParseGroups(text[|prefix| + 1..]) else None
  }

  /** The leftmost match of the pattern, which is not anchored at either end. */
  function Find(prefix: string, path: string): Option<SupportArchiveID> {
    if Parse(prefix, path).Some? || path == "" then Parse(prefix, path) else Find(prefix, path[1..])
  }

  lemma {:induction false} RunUnique(s: string, stop: set<char>, n: nat)
    requires n < |s| && s[n] in stop
    requires forall c :: c in s[..n] ==> c !in stop
    ensures Run(s, stop) == n
  {
    if n > 0 {
      assert s[..n][0] == s[0];
      assert forall c :: c in s[1..][..n - 1] ==> c in s[..n];
      RunUnique(s[1..], stop, n - 1);
    }
  }

  /** Taking as much as possible for each group finds the match if there is one: it is unique. */
  lemma ParsesWhatMatches(prefix: string, text: string, id: SupportArchiveID)
    ensures Parse(prefix, text) == Some(id) <==> Matches(prefix, text, id)
  {
    if Matches(prefix, text, id) {
      MatchParses(prefix, text, id);
    }
    if Parse(prefix, text) == Some(id) {
      ParsedMatches(prefix, text, id);
    }
  }

  lemma MatchParses(prefix: string, text: string, id: SupportArchiveID)
    requires Matches(prefix, text, id)
    ensures Parse(prefix, text) == Some(id)
  {
    var n, m := |id.namespace|, |id.name|;
    Peel(prefix + "/" + id.namespace + "/" + id.name, ".zip", text);
    Peel(prefix + "/" + id.namespace + "/", id.name, text);
    Peel(prefix + "/" + id.namespace, "/", text);
    Peel(prefix + "/", id.namespace, text);
    var groups := text[|prefix| + 1..];
    assert groups[..n] == id.namespace;
    RunUnique(groups, {'/'}, n);
    var file := groups[n + 1..];
    assert file[..m] == id.name && file[m] == '.';
    RunUnique(file, {'/', '.'}, m);
  }

  lemma Peel(a: string, b: string, text: string)
    requires a + b <= text
    ensures a <= text && b <= text[|a|..]
    ensures text[|a + b|..] == text[|a|..][|b|..]
  {
    assert forall i :: 0 <= i < |a| ==> a[i] == (a + b)[i];
    assert forall i :: 0 <= i < |b| ==> b[i] == (a + b)[|a| + i];
  }

  lemma Extends(a: string, b: string, text: string)
    requires a <= text && b <= text[|a|..]
    ensures a + b <= text && text[|a + b|..] == text[|a|..][|b|..]
  {
  }

  lemma ParsedMatches(prefix: string, text: string, id: SupportArchiveID)
    requires Parse(prefix, text) == Some(id)
    ensures Matches(prefix, text, id)
  {
    Extends(prefix + "/", id.namespace, text);
    Extends(prefix + "/" + id.namespace, "/", text);
    Extends(prefix + "/" + id.namespace + "/", id.name, text);
    Extends(prefix + "/" + id.namespace + "/" + id.name, ".zip", text);
  }

  /** A found id comes from a match somewhere in the path. */
  lemma {:induction false} FoundSomewhere(prefix: string, path: string) returns (before: string, text: string)
    requires Find(prefix, path).Some?
    ensures path == before + text && Matches(prefix, text, Find(prefix, path).value)
  {
    if Parse(prefix, path).Some? {
      before, text := "", path;
      ParsesWhatMatches(prefix, path, Find(prefix, path).value);
    } else {
      before, text := FoundSomewhere(prefix, path[1..]);
      before := [path[0]] + before;
    }
  }

  /** Somewhere in the path the pattern matches, behind `before`, and nowhere earlier. */
  ghost predicate LeftmostMatch(prefix: string, path: string, before: nat, id: SupportArchiveID) {
    && before <= |path| && Matches(prefix, path[before..], id)
    && forall k: nat, other :: k < before ==> !Matches(prefix, path[k..], other)
  }

  /** Find is the leftmost match of the pattern, wherever in the path it starts. */
  lemma {:induction false} FindIsLeftmost(prefix: string, path: string, id: SupportArchiveID)
    ensures Find(prefix, path) == Some(id) <==> exists before: nat :: LeftmostMatch(prefix, path, before, id)
  {
    assert path[0..] == path;
    if Parse(prefix, path).Some? {
      var first := Parse(prefix, path).value;
      ParsesWhatMatches(prefix, path, first);
      ParsesWhatMatches(prefix, path, id);
      assert LeftmostMatch(prefix, path, 0, first);
    } else if path != "" {
      FindIsLeftmost(prefix, path[1..], id);
      forall other ensures !Matches(prefix, path, other) {
        ParsesWhatMatches(prefix, path, other);
      }
      assert forall k: nat :: k < |path| ==> path[1..][k..] == path[k + 1..];
      if before: nat :| LeftmostMatch(prefix, path[1..], before, id) {
        assert path[1..][before..] == path[before + 1..];
        forall k: nat, other | k < before + 1 ensures !Matches(prefix, path[k..], other) {
          assert k > 0 ==> path[k..] == path[1..][k - 1..];
        }
        assert LeftmostMatch(prefix, path, before + 1, id);
      }
      if before: nat :| LeftmostMatch(prefix, path, before, id) {
        assert before > 0 && path[before..] == path[1..][before - 1..];
        forall k: nat, other | k < before - 1 ensures !Matches(prefix, path[1..][k..], other) {
          assert path[1..][k..] == path[k + 1..];
        }
        assert LeftmostMatch(prefix, path[1..], before - 1, id);
      }
    } else {
      forall before: nat ensures !LeftmostMatch(prefix, path, before, id) {
      }
    }
  }

  // ---------- the round trip ----------

  /** The last element of the one and the first of the other grow together. */
  lemma {:induction false} SplitAppended(a: string, b: string)
    ensures Split(a + b) == Meet(Split(a), Split(b))
  {
    if a == "" {
      assert a + b == b && "" + Split(b)[0] == Split(b)[0];
    } else {
      assert (a + b)[1..] == a[1..] + b;
      SplitAppended(a[1..], b);
      if a[0] == '/' {
        assert Meet([""] + Split(a[1..]), Split(b)) == [""] + Meet(Split(a[1..]), Split(b));
      } else {
        MeetGrows(a[0], Split(a[1..]), Split(b));
      }
    }
  }

  function Meet(a: seq<string>, b: seq<string>): seq<string>
    requires a != [] && b != []
  {
    a[..|a| - 1] + ([a[|a| - 1] + b[0]] + b[1..])
  }

  lemma MeetGrows(c: char, a: seq<string>, b: seq<string>)
    requires a != [] && b != []
    ensures Meet([[c] + a[0]] + a[1..], b) == [[c] + Meet(a, b)[0]] + Meet(a, b)[1..]
  {
    if |a| == 1 {
      assert [c] + (a[0] + b[0]) == [c] + a[0] + b[0];
    }
  }

  lemma FrontHasSlash(a: string, b: string)
    requires Rooted(a + b)
    ensures a == "" || |Split(a)| >= 2
  {
    if a != "" {
      assert a[0] == (a + b)[0];
    }
  }

  /** The elements of a text that starts with a match. */
  lemma MatchedElements(prefix: string, text: string, id: SupportArchiveID) returns (behind: string)
    requires Matches(prefix, text, id)
    ensures Split(text) == Split(prefix) + ([id.namespace] + Split(behind))
  {
    var front := prefix + "/" + id.namespace;
    Peel(front + "/" + id.name, ".zip", text);
    Peel(front + "/", id.name, text);
    behind := text[|front + "/"|..];
    assert text == front + "/" + behind;
    SplitJoined(front, behind);
    SplitJoined(prefix, id.namespace);
    SplitPlain(id.namespace);
  }

  lemma SplitPath(root: seq<string>, id: SupportArchiveID)
    requires ArchivesRoot(root)
    ensures forall p :: p in Split(ArchivePath(root, id)) ==> p == "" || Plain(p)
  {
    var stack := Location(root, id);
    LocationIsPlain(root, id);
    PathIsLocation(root, id);
    SplitAppended(Rendered(stack), ".zip");
    SplitPlain(".zip");
    if stack == [] {
      assert Split("/")[1..] == Split("");
      StaysPlain("");
    } else {
      SplitRendered(stack);
      StaysPlain(stack[|stack| - 1]);
    }
  }

  lemma StaysPlain(part: string)
    requires part == "" || Plain(part)
    ensures Plain(part + ".zip")
  {
    assert |part + ".zip"| > 2;
  }

  /** Whatever is found in the path of an archive is an id that can be listed: "." and ".." never survive in a path. */
  lemma FoundIsListable(root: seq<string>, id: SupportArchiveID)
    requires ArchivesRoot(root)
    ensures var found := Find(Slashed(root), ArchivePath(root, id)); found.Some? ==> Listable(found.value)
  {
    var prefix, path := Slashed(root), ArchivePath(root, id);
    if Find(prefix, path).Some? {
      var found := Find(prefix, path).value;
      var before, text := FoundSomewhere(prefix, path);
      var behind := MatchedElements(prefix, text, found);
      SplitAppended(before, text);
      assert Split(text)[1..][|Split(prefix)| - 1] == found.namespace;
      SplitPath(root, id);
    }
  }

  lemma ListablePath(root: seq<string>, id: SupportArchiveID)
    requires ArchivesRoot(root) && Plain(id.namespace) && Plain(id.name)
    ensures ArchivePath(root, id) == Slashed(root) + "/" + id.namespace + "/" + id.name + ".zip"
  {
    PathIsLocation(root, id);
    SplitPlain(id.namespace);
    SplitPlain(id.name);
    ResolveOne(root, id.namespace);
    ResolveOne(root + [id.namespace], id.name);
    SlashedSnoc(root, id.namespace);
    SlashedSnoc(root + [id.namespace], id.name);
  }

  /** The pattern applied to an archive's path yields that archive exactly for the listable ids. */
  lemma RoundTrip(root: seq<string>, id: SupportArchiveID)
    requires ArchivesRoot(root)
    ensures Find(Slashed(root), ArchivePath(root, id)) == Some(id) <==> Listable(id)
  {
    FoundIsListable(root, id);
    if Listable(id) {
      ListablePath(root, id);
      MatchParses(Slashed(root), ArchivePath(root, id), id);
    }
  }

  /** Distinct ids whose namespace and name are plain path elements have distinct paths, also if they have dots. */
  lemma PathsDiffer(root: seq<string>, a: SupportArchiveID, b: SupportArchiveID)
    requires ArchivesRoot(root)
    requires Plain(a.namespace) && Plain(a.name) && Plain(b.namespace) && Plain(b.name)
    requires ArchivePath(root, a) == ArchivePath(root, b)
    ensures a == b
  {
    PathElements(root, a);
    PathElements(root, b);
    var parts := Split(ArchivePath(root, a));
    assert parts[|root| + 1] == a.namespace == b.namespace;
    assert parts[|root| + 2] == a.name + ".zip" == b.name + ".zip";
    assert a.name == (a.name + ".zip")[..|a.name|];
    assert b.name == (b.name + ".zip")[..|b.name|];
  }

  lemma PathElements(root: seq<string>, id: SupportArchiveID)
    requires ArchivesRoot(root) && Plain(id.namespace) && Plain(id.name)
    ensures Split(ArchivePath(root, id)) == [""] + root + [id.namespace, id.name + ".zip"]
  {
    var dirs := root + [id.namespace];
    ListablePath(root, id);
    SlashedSnoc(root, id.namespace);
    assert ArchivePath(root, id) == Slashed(dirs) + "/" + (id.name + ".zip");
    SplitSlashed(dirs, id.name + ".zip");
  }

  /** The zip that the deletion on the tree removes is the file of this path, and a collector's directory lies where its data is stored. */
  lemma PathsAgreeWithTheTree(root: seq<string>, id: SupportArchiveID, col: CollectorType)
    requires ArchivesRoot(root) && Plain(id.namespace) && Plain(id.name)
    ensures ArchivePath(root, id) == Slashed(WorkTree.ZipPath(root, id))
    ensures WorkTree.CollectorDir(root, id, col) == root + [id.namespace] + [id.name] + Dir(col)
  {
    ListablePath(root, id);
    SlashedSnoc(root, id.namespace);
    SlashedSnoc(root + [id.namespace], id.name + ".zip");
    assert WorkTree.ZipPath(root, id) == root + [id.namespace] + [id.name + ".zip"];
  }

  /** Without the restriction to plain elements two ids can share a path. */
  lemma PathShared(root: seq<string>, id: SupportArchiveID)
    requires ArchivesRoot(root) && Listable(id)
    ensures var alias := SupportArchiveID("", id.namespace + "/" + id.name);
            alias != id && ArchivePath(root, alias) == ArchivePath(root, id)
  {
    var alias := SupportArchiveID("", id.namespace + "/" + id.name);
    PathIsLocation(root, id);
    PathIsLocation(root, alias);
    ResolveOne(root, "");
    SplitJoined(id.namespace, id.name);
    ResolveJoined(root, Split(id.namespace), Split(id.name));
  }

  /** The namespaces that do not stay in a path: the empty one and "." vanish, ".." leads to the parent of the root. */
  lemma SpecialNamespaces(root: seq<string>, name: string)
    requires ArchivesRoot(root) && Plain(name)
    ensures ArchivePath(root, SupportArchiveID("", name)) == Slashed(root) + "/" + name + ".zip"
    ensures ArchivePath(root, SupportArchiveID(".", name)) == Slashed(root) + "/" + name + ".zip"
    ensures ArchivePath(root, SupportArchiveID("..", name)) == Slashed(root[..|root| - 1]) + "/" + name + ".zip"
  {
    SplitPlain(name);
    SplitPlain(".");
    SplitPlain("..");
    PathIsLocation(root, SupportArchiveID("", name));
    PathIsLocation(root, SupportArchiveID(".", name));
    PathIsLocation(root, SupportArchiveID("..", name));
    ResolveOne(root, "");
    ResolveOne(root, ".");
    ResolveOne(root, "..");
    ResolveOne(root, name);
    ResolveOne(root[..|root| - 1], name);
    SlashedSnoc(root, name);
    SlashedSnoc(root[..|root| - 1], name);
  }

  // ---------- names with dots ----------

  /** A path that is only two levels deep below the root cannot match from anywhere but its start. */
  lemma MatchesOnlyAtStart(root: seq<string>, before: string, text: string, id: SupportArchiveID)
    requires ArchivesRoot(root) && Matches(Slashed(root), text, id)
    requires Rooted(before + text) && |Split(before + text)| == |root| + 3
    ensures before == ""
  {
    var behind := MatchedElements(Slashed(root), text, id);
    SplitRendered(root);
    SplitAppended(before, text);
    FrontHasSlash(before, text);
  }

  lemma FoundAtStart(root: seq<string>, path: string)
    requires ArchivesRoot(root) && Rooted(path) && |Split(path)| == |root| + 3
    ensures Find(Slashed(root), path) == Parse(Slashed(root), path)
  {
    if Find(Slashed(root), path).Some? {
      var found := Find(Slashed(root), path).value;
      var before, text := FoundSomewhere(Slashed(root), path);
      MatchesOnlyAtStart(root, before, text, found);
      assert text == path;
      MatchParses(Slashed(root), path, found);
    }
  }

  lemma DottedText(front: string, back: string)
    ensures front + "." + back + ".zip" == front + ("." + (back + ".zip"))
  {
  }

  /**
    A name with a dot is never listed as itself: if "zip" follows its first dot, the part before the
    dot is listed in its place, otherwise the file does not match, which ends the walk.
   */
  lemma DottedName(root: seq<string>, namespace: string, front: string, back: string)
    requires ArchivesRoot(root) && Plain(namespace)
    requires Plain(front + "." + back) && '.' !in front
    ensures Find(Slashed(root), ArchivePath(root, SupportArchiveID(namespace, front + "." + back)))
         == if front != "" && "zip" <= back then Some(SupportArchiveID(namespace, front)) else None
  {
    var name := front + "." + back;
    assert forall c :: c in front ==> c in name;
    DottedPath(root, namespace, name);
    DottedText(front, back);
    DottedParse(Slashed(root), namespace, front, back);
  }

  lemma DottedPath(root: seq<string>, namespace: string, name: string)
    requires ArchivesRoot(root) && Plain(namespace) && Plain(name)
    ensures var path := ArchivePath(root, SupportArchiveID(namespace, name));
            && path == Slashed(root) + "/" + namespace + "/" + (name + ".zip")
            && Find(Slashed(root), path) == Parse(Slashed(root), path)
  {
    var path := ArchivePath(root, SupportArchiveID(namespace, name));
    ListablePath(root, SupportArchiveID(namespace, name));
    SlashedSnoc(root, namespace);
    TwoLevels(root + [namespace], name + ".zip");
    assert path == Slashed(root + [namespace]) + "/" + (name + ".zip");
    FoundAtStart(root, path);
  }

  lemma TwoLevels(dirs: seq<string>, file: string)
    requires dirs != [] && AllPlain(dirs) && '/' !in file
    ensures var path := Slashed(dirs) + "/" + file; Rooted(path) && |Split(path)| == |dirs| + 2
  {
    SplitSlashed(dirs, file);
  }

  lemma ParseFile(namespace: string, groups: string, file: string)
    requires Plain(namespace) && groups == namespace + "/" + file
    ensures ParseGroups(groups) == ParseName(namespace, file)
  {
    assert groups[..|namespace|] == namespace;
    assert groups[|namespace| + 1..] == file;
    RunUnique(groups, {'/'}, |namespace|);
  }

  lemma DottedRun(front: string, rest: string)
    requires '/' !in front && '.' !in front && rest != "" && rest[0] == '.'
    ensures var file := front + rest;
            var m := Run(file, {'/', '.'});
            m == |front| && file[..m] == front && file[m..] == rest
  {
    var file := front + rest;
    assert file[..|front|] == front && file[|front|..] == rest;
    RunUnique(file, {'/', '.'}, |front|);
  }

  lemma DottedParse(prefix: string, namespace: string, front: string, back: string)
    requires Plain(namespace) && '/' !in front && '.' !in front
    ensures Parse(prefix, prefix + "/" + namespace + "/" + (front + ("." + (back + ".zip"))))
         == if front != "" && "zip" <= back then Some(SupportArchiveID(namespace, front)) else None
  {
    var file := front + ("." + (back + ".zip"));
    var text := prefix + "/" + namespace + "/" + file;
    assert text == (prefix + "/") + (namespace + "/" + file);
    assert text[|prefix| + 1..] == namespace + "/" + file;
    ParseFile(namespace, text[|prefix| + 1..], file);
    DottedRun(front, "." + (back + ".zip"));
    ZipBehindDot(back);
  }

  lemma ZipBehindDot(back: string)
    ensures ".zip" <= "." + (back + ".zip") <==> "zip" <= back
  {
    var s := "." + (back + ".zip");
    assert ".zip" <= s <==> s[1] == 'z' && s[2] == 'i' && s[3] == 'p';
    assert "zip" <= back <==> |back| >= 3 && back[0] == 'z' && back[1] == 'i' && back[2] == 'p';
  }

  // ---------- the walk over the store ----------

  /** One call of the walk's callback; `failed`: the walk reports an error with it. */
  datatype Visit = Visit(path: string, isDir: bool, failed: bool)

  predicate Stops(prefix: string, visit: Visit) {
    visit.failed || (!visit.isDir && Find(prefix, visit.path).None?)
  }

  predicate Succeeds(prefix: string, visits: seq<Visit>) {
    visits == [] || (!Stops(prefix, visits[0]) && Succeeds(prefix, visits[1..]))
  }

  function OneListed(prefix: string, visit: Visit): seq<SupportArchiveID> {
    var found := Find(prefix, visit.path);
    if !visit.isDir && found.Some? then [found.value] else []
  }

  /** The ids found up to the first visit that stops the walk. */
  function Listed(prefix: string, visits: seq<Visit>): seq<SupportArchiveID> {
    if visits == [] then []
    else OneListed(prefix, visits[0]) + if Stops(prefix, visits[0]) then [] else Listed(prefix, visits[1..])
  }

  /** The first i visits have been made, the rest is still to come. */
  ghost predicate Walking(prefix: string, visits: seq<Visit>, list: seq<SupportArchiveID>, i: nat)
    requires i <= |visits|
  {
    && list + Listed(prefix, visits[i..]) == Listed(prefix, visits)
    && Succeeds(prefix, visits[i..]) == Succeeds(prefix, visits)
  }

  ghost predicate Stopped(prefix: string, visits: seq<Visit>, list: seq<SupportArchiveID>) {
    list == Listed(prefix, visits) && !Succeeds(prefix, visits)
  }

  lemma WalkContinues(prefix: string, visits: seq<Visit>, list: seq<SupportArchiveID>, i: nat)
    requires i < |visits| && Walking(prefix, visits, list, i)
    ensures var list' := list + OneListed(prefix, visits[i]);
            if Stops(prefix, visits[i]) then Stopped(prefix, visits, list') else Walking(prefix, visits, list', i + 1)
  {
    var one, rest := OneListed(prefix, visits[i]), Listed(prefix, visits[i + 1..]);
    assert visits[i..][1..] == visits[i + 1..];
    if Stops(prefix, visits[i]) {
      assert one + [] == one;
    } else {
      assert list + (one + rest) == list + one + rest;
    }
  }

  /** The callback of the walk: appends what it finds and says whether the walk goes on. */
  method VisitEntry(prefix: string, visit: Visit, list: seq<SupportArchiveID>)
    returns (list': seq<SupportArchiveID>, ok: bool)
    ensures list' == list + OneListed(prefix, visit)
    ensures ok == !Stops(prefix, visit)
  {
    list', ok := list, !visit.failed;
    if !visit.isDir {
      match Find(prefix, visit.path) {
        case Some(id) =>
          list' := list + [id];
        case None =>
          ok := false;
      }
    }
  }

  datatype WalkOutcome = Completed | Aborted | Panicked

  /**
    `missing`: there is no archives directory.  Then the walk calls the callback once, without an entry,
    and the callback asks that for its kind.
   */
  method List(prefix: string, missing: bool, visits: seq<Visit>)
    returns (list: seq<SupportArchiveID>, outcome: WalkOutcome)
    ensures missing ==> list == [] && outcome == Panicked
    ensures !missing ==> list == Listed(prefix, visits)
    ensures !missing ==> outcome == if Succeeds(prefix, visits) then Completed else Aborted
  {
    list := [];
    if missing {
      return list, Panicked;
    }
    var ok := true;
    var i := 0;
    while ok && i < |visits|
      invariant i <= |visits|
      invariant if ok then Walking(prefix, visits, list, i) else Stopped(prefix, visits, list)
      decreases ok, |visits| - i
    {
      WalkContinues(prefix, visits, list, i);
      list, ok := VisitEntry(prefix, visits[i], list);
      i := i + 1;
    }
    outcome := if ok then Completed else Aborted;
  }

  /** List completes exactly if no visit failed and every visited file matches the pattern. */
  lemma {:induction false} SucceedsIff(prefix: string, visits: seq<Visit>)
    ensures Succeeds(prefix, visits) <==>
              forall i :: 0 <= i < |visits| ==>
                !visits[i].failed && (visits[i].isDir || Find(prefix, visits[i].path).Some?)
  {
    if visits != [] {
      SucceedsIff(prefix, visits[1..]);
      assert forall i :: 1 <= i < |visits| ==> visits[i] == visits[1..][i - 1];
    }
  }

  /** What a walk visits after the visit that stops it is not listed. */
  lemma {:induction false} ListedUpToTheStop(prefix: string, before: seq<Visit>, stop: Visit, after: seq<Visit>)
    requires Succeeds(prefix, before) && Stops(prefix, stop)
    ensures Listed(prefix, before + [stop] + after) == Listed(prefix, before) + OneListed(prefix, stop)
    ensures !Succeeds(prefix, before + [stop] + after)
  {
    var visits := before + [stop] + after;
    if before == [] {
      assert visits[0] == stop && OneListed(prefix, stop) + [] == OneListed(prefix, stop);
    } else {
      assert visits[1..] == before[1..] + [stop] + after;
      ListedUpToTheStop(prefix, before[1..], stop, after);
    }
  }

  /** The visited files, in order. */
  function Files(visits: seq<Visit>): seq<string> {
    if visits == [] then []
    else (if visits[0].isDir then [] else [visits[0].path]) + Files(visits[1..])
  }

  /** A complete walk, in any order, over a store that holds nothing but these archives. */
  ghost predicate WalkOf(root: seq<string>, visits: seq<Visit>, store: set<SupportArchiveID>)
    requires root != []
  {
    && (forall v :: v in visits ==> !v.failed)
    && Distinct(Files(visits))
    && Elements(Files(visits)) == set id | id in store :: ArchivePath(root, id)
  }

  /** Exists, on a store with these files. */
  predicate Exists(root: seq<string>, files: set<string>, id: SupportArchiveID)
    requires root != []
  {
    ArchivePath(root, id) in files
  }

  ghost predicate FoundIn(prefix: string, list: seq<SupportArchiveID>, files: seq<string>) {
    |list| == |files| && forall i :: 0 <= i < |list| ==> Find(prefix, files[i]) == Some(list[i])
  }

  lemma {:induction false} SucceedsIfAllFound(prefix: string, visits: seq<Visit>)
    requires forall v :: v in visits ==> !v.failed
    requires forall file :: file in Files(visits) ==> Find(prefix, file).Some?
    ensures Succeeds(prefix, visits)
  {
    if visits != [] {
      var first, rest := visits[0], visits[1..];
      var own := if first.isDir then [] else [first.path];
      assert first in visits;
      assert Files(visits) == own + Files(rest);
      assert first.isDir || first.path in own;
      SucceedsIfAllFound(prefix, rest);
    }
  }

  lemma {:induction false} ListsTheFiles(prefix: string, visits: seq<Visit>)
    requires Succeeds(prefix, visits)
    ensures FoundIn(prefix, Listed(prefix, visits), Files(visits))
  {
    if visits != [] {
      ListsTheFiles(prefix, visits[1..]);
    }
  }

  lemma {:induction false} FileOfListed(prefix: string, visits: seq<Visit>, id: SupportArchiveID) returns (file: string)
    requires id in Listed(prefix, visits)
    ensures file in Files(visits) && Find(prefix, file) == Some(id)
  {
    if id in OneListed(prefix, visits[0]) {
      file := visits[0].path;
    } else {
      file := FileOfListed(prefix, visits[1..], id);
    }
  }

  ghost predicate AllListable(store: set<SupportArchiveID>) {
    forall id :: id in store ==> Listable(id)
  }

  ghost predicate ListsExactly(root: seq<string>, visits: seq<Visit>, store: set<SupportArchiveID>) {
    && Succeeds(Slashed(root), visits)
    && Elements(Listed(Slashed(root), visits)) == store
    && Distinct(Listed(Slashed(root), visits))
  }

  /** List reports exactly the stored archives, each once and without an error, if and only if all of them are listable. */
  lemma ListsExactlyIff(root: seq<string>, visits: seq<Visit>, store: set<SupportArchiveID>)
    requires ArchivesRoot(root) && WalkOf(root, visits, store)
    ensures ListsExactly(root, visits, store) <==> AllListable(store)
  {
    if AllListable(store) {
      ListableStore(root, visits, store);
    }
    if ListsExactly(root, visits, store) {
      forall id | id in store
        ensures Listable(id)
      {
        ListedIsListable(root, visits, store, id);
      }
    }
  }

  /** Nothing that is not listable is ever listed, even by a walk that stops early. */
  lemma ListedIsListable(root: seq<string>, visits: seq<Visit>, store: set<SupportArchiveID>, id: SupportArchiveID)
    requires ArchivesRoot(root) && WalkOf(root, visits, store)
    requires id in Listed(Slashed(root), visits)
    ensures Listable(id)
  {
    var file := FileOfListed(Slashed(root), visits, id);
    assert file in Elements(Files(visits));
    var stored :| stored in store && file == ArchivePath(root, stored);
    FoundIsListable(root, stored);
  }

  lemma FileOfListable(root: seq<string>, visits: seq<Visit>, store: set<SupportArchiveID>, file: string) returns (id: SupportArchiveID)
    requires ArchivesRoot(root) && WalkOf(root, visits, store)
    requires AllListable(store)
    requires file in Files(visits)
    ensures id in store && file == ArchivePath(root, id) && Find(Slashed(root), file) == Some(id)
  {
    assert file in Elements(Files(visits));
    id :| id in store && file == ArchivePath(root, id);
    RoundTrip(root, id);
  }

  lemma ListableStore(root: seq<string>, visits: seq<Visit>, store: set<SupportArchiveID>)
    requires ArchivesRoot(root) && WalkOf(root, visits, store)
    requires AllListable(store)
    ensures ListsExactly(root, visits, store)
  {
    var prefix, files, list := Slashed(root), Files(visits), Listed(Slashed(root), visits);
    forall file | file in files
      ensures Find(prefix, file).Some?
    {
      var id := FileOfListable(root, visits, store, file);
    }
    SucceedsIfAllFound(prefix, visits);
    ListsTheFiles(prefix, visits);
    forall id | id in list
      ensures id in store
    {
      var i :| 0 <= i < |list| && list[i] == id;
      var id' := FileOfListable(root, visits, store, files[i]);
    }
    forall id | id in store
      ensures id in list
    {
      assert ArchivePath(root, id) in Elements(files);
      var i :| 0 <= i < |files| && files[i] == ArchivePath(root, id);
      RoundTrip(root, id);
      assert list[i] == id;
    }
    forall i, j | 0 <= i < j < |list|
      ensures list[i] != list[j]
    {
      var a := FileOfListable(root, visits, store, files[i]);
      var b := FileOfListable(root, visits, store, files[j]);
    }
  }

  /** Behind the first file that is not recognized no archive is listed. */
  lemma UnseenBehindTheStop(root: seq<string>, before: seq<Visit>, stop: Visit, after: seq<Visit>,
                            seen: set<SupportArchiveID>)
    requires ArchivesRoot(root) && WalkOf(root, before, seen) && AllListable(seen)
    requires Stops(Slashed(root), stop) && !stop.failed
    ensures Elements(Listed(Slashed(root), before + [stop] + after)) == seen
  {
    ListableStore(root, before, seen);
    ListedUpToTheStop(Slashed(root), before, stop, after);
    assert Listed(Slashed(root), before) + [] == Listed(Slashed(root), before);
  }

  /** On such a store List and Exists agree on every listable id. */
  lemma ListedIffExists(root: seq<string>, visits: seq<Visit>, store: set<SupportArchiveID>, id: SupportArchiveID)
    requires ArchivesRoot(root) && WalkOf(root, visits, store)
    requires Listable(id) && AllListable(store)
    ensures id in Listed(Slashed(root), visits) <==> Exists(root, Elements(Files(visits)), id)
  {
    ListableStore(root, visits, store);
    assert id in Listed(Slashed(root), visits) <==> id in Elements(Listed(Slashed(root), visits));
    if Exists(root, Elements(Files(visits)), id) {
      var id' := FileOfListable(root, visits, store, ArchivePath(root, id));
      PathsDiffer(root, id, id');
    }
  }
}
