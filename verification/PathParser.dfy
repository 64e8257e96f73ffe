/** The meaning of a path: a drive number and a list of components. */
module Paths {
  const MAX_PATH: nat := 108
  /** A buffer of MAX_PATH characters is a whole block when it comes from kzalloc. */
  const BUFFER_SIZE: nat := 4096

  predicate IsDigit(c: char) {
    '0' <= c <= '9'
  }

  /** The index of the first slash at or after i; the length when there is none. */
  function Slash(s: string, i: nat): (r: nat)
    requires i <= |s|
    ensures i <= r <= |s| && (r < |s| ==> s[r] == '/')
    ensures forall k :: i <= k < r ==> s[k] != '/'
    decreases |s| - i
  {
    if i == |s| || s[i] == '/' then i else Slash(s, i + 1)
  }

  /** The components of a path, up to the first empty one. */
  function Parts(s: string): (r: seq<string>)
    ensures forall p :: p in r ==> Component(p)
  {
    var n := Slash(s, 0);
    if n == 0 then []
    else if n == |s| then [s]
    else [s[..n]] + Parts(s[n + 1..])
  }

  /** What a component can be: not empty, and with no slash in it. */
  predicate Component(p: string) {
    p != "" && '/' !in p
  }

  /** How far the parser goes: over the components and the slashes after them, and over the slash
      it stops at. */
  function Consumed(s: string): (r: nat)
    ensures r <= |s|
  {
    var n := Slash(s, 0);
    if n == |s| then n
    else if n == 0 then 1
    else n + 1 + Consumed(s[n + 1..])
  }

  /** A path begins with a digit, a colon and a slash, and does not end there. */
  predicate ValidFormat(s: string) {
    |s| > 3 && IsDigit(s[0]) && s[1] == ':' && s[2] == '/'
  }

  datatype Path = Path(drive: int, parts: seq<string>)

  /** A text in another format is taken for a list of components without a drive. */
  function Parse(s: string): Path {
    if ValidFormat(s) then Path(s[0] as int - '0' as int, Parts(s[3..])) else Path(-1, Parts(s))
  }

  /** s is the drive's digit, a colon, a slash, and a text t. */
  predicate OnDrive(s: string, digit: char, t: string) {
    '0' <= digit <= '9' && t != "" && s == [digit] + ":/" + t
  }

  /** A text has a drive exactly when it is written with one, and the digit is its number. */
  lemma {:induction false} DriveExactly(s: string)
    ensures Parse(s).drive != -1 <==> exists digit: char, t: string :: OnDrive(s, digit, t)
    ensures forall digit: char, t: string :: OnDrive(s, digit, t) ==>
              Parse(s) == Path(digit as int - 48, Parts(t)) && 0 <= Parse(s).drive <= 9
    ensures Parse(s).drive == -1 ==> Parse(s).parts == Parts(s)
  {
    hide Parts;
    if ValidFormat(s) {
      assert s == [s[0]] + ":/" + s[3..];
      assert OnDrive(s, s[0], s[3..]);
    }
    forall digit: char, t: string | OnDrive(s, digit, t)
      ensures Parse(s) == Path(digit as int - 48, Parts(t)) && 0 <= Parse(s).drive <= 9
    {
      assert s[3..] == t;
    }
  }

  function Join(parts: seq<string>): string {
    if parts == [] then ""
    else if |parts| == 1 then parts[0]
    else parts[0] + "/" + Join(parts[1..])
  }

  predicate Components(parts: seq<string>) {
    forall i :: 0 <= i < |parts| ==> Component(parts[i])
  }

  lemma SlashIs(s: string, r: nat)
    requires r <= |s| && (r < |s| ==> s[r] == '/') && '/' !in s[..r]
    ensures Slash(s, 0) == r
  {
    assert forall k :: 0 <= k < r ==> s[..r][k] == s[k];
  }

  lemma OnePart(p: string)
    requires Component(p)
    ensures Parts(p) == [p] && Consumed(p) == |p|
  {
    SlashIs(p, |p|);
  }

  lemma FirstPart(p: string, rest: string)
    requires Component(p)
    ensures Parts(p + "/" + rest) == [p] + Parts(rest) && Consumed(p + "/" + rest) == |p| + 1 + Consumed(rest)
  {
    var s := p + "/" + rest;
    assert s[..|p|] == p && s[|p| + 1..] == rest;
    SlashIs(s, |p|);
    if rest == "" { SlashIs(rest, 0); }
  }

  lemma JoinNotEmpty(parts: seq<string>)
    requires Components(parts) && parts != []
    ensures Join(parts) != ""
  {
  }

  /** Splitting what was joined gives the components back, with or without a slash at the end. */
  lemma {:induction false} PartsOfJoin(parts: seq<string>)
    requires Components(parts) && parts != []
    ensures Parts(Join(parts)) == parts && Parts(Join(parts) + "/") == parts
    ensures Consumed(Join(parts)) == |Join(parts)| && Consumed(Join(parts) + "/") == |Join(parts)| + 1
  {
    hide Parts, Consumed;
    var p, s := parts[0], Join(parts);
    assert Component(p);
    if |parts| == 1 {
      OnePart(p);
      FirstPart(p, "");
      NoParts();
      assert s + "/" == p + "/" + "" && [p] + [] == parts;
    } else {
      var rest := Join(parts[1..]);
      PartsOfJoin(parts[1..]);
      FirstPart(p, rest);
      FirstPart(p, rest + "/");
      assert s + "/" == p + "/" + (rest + "/") && parts == [p] + parts[1..];
    }
  }

  lemma NoParts()
    ensures Parts("") == [] && Consumed("") == 0
  {
  }

  /** Path round trip: drive and components come back from the text made of them, and a slash at
      the end changes nothing. */
  lemma {:induction false} ParseRoundTrip(drive: char, parts: seq<string>)
    requires IsDigit(drive) && Components(parts) && parts != []
    ensures var s := [drive] + ":/" + Join(parts);
            Parse(s) == Parse(s + "/") == Path(drive as int - '0' as int, parts)
  {
    var s := [drive] + ":/" + Join(parts);
    JoinNotEmpty(parts);
    PartsOfJoin(parts);
    assert s[3..] == Join(parts) && (s + "/")[3..] == Join(parts) + "/";
  }

  /** A drive alone is the one text made of a drive and components that does not come back. */
  lemma {:induction false} ParseRoundTripExactly(drive: char, parts: seq<string>)
    requires IsDigit(drive) && Components(parts)
    ensures Parse([drive] + ":/" + Join(parts)) == Path(drive as int - '0' as int, parts) <==> parts != []
  {
    if parts != [] { ParseRoundTrip(drive, parts); }
  }

  /** What the components leave out: the text is their join and then nothing, or a slash that ends
      it, or a slash and an empty component. */
  predicate Tail(s: string, joined: string) {
    joined <= s && (s == joined || s == joined + "/" || joined + (if joined == "" then "/" else "//") <= s)
  }

  /** For every text: joining its components gives back the part of it that was parsed. */
  lemma {:induction false} JoinOfParts(s: string)
    ensures Tail(s, Join(Parts(s)))
  {
    var n := Slash(s, 0);
    if n == 0 {
    } else if n < |s| {
      hide Parts;
      var head, rest := s[..n], s[n + 1..];
      assert s == head + "/" + rest;
      JoinOfParts(rest);
      FirstPart(head, rest);
      TailStep(head, rest, Parts(rest));
    }
  }

  lemma TailStep(head: string, rest: string, parts: seq<string>)
    requires Tail(rest, Join(parts)) && Components(parts)
    ensures Tail(head + "/" + rest, Join([head] + parts))
  {
    var s := head + "/" + rest;
    if parts == [] {
      if rest != "" { assert s == head + "//" + rest[1..]; }
    } else {
      var joined := Join(parts);
      JoinNotEmpty(parts);
      assert ([head] + parts)[1..] == parts;
      assert Join([head] + parts) == head + "/" + joined;
      assert s == head + "/" + joined + rest[|joined|..];
      if joined + "//" <= rest {
        assert s == head + "/" + joined + "//" + rest[|joined| + 2..];
      }
    }
  }

  /** A text is the join of its components exactly when none of them is empty. */
  lemma {:induction false} FullyParsedExactly(s: string)
    requires s != ""
    ensures Join(Parts(s)) == s <==> exists parts: seq<string> :: Components(parts) && parts != [] && Join(parts) == s
  {
    if parts: seq<string> :| Components(parts) && parts != [] && Join(parts) == s {
      PartsOfJoin(parts);
    }
    if Join(Parts(s)) == s {
      assert Components(Parts(s)) && Parts(s) != [];
    }
  }

  /** The longest component decides whether the buffers of the parser suffice. */
  predicate FitsBuffers(parts: seq<string>) {
    forall p :: p in parts ==> |p| < BUFFER_SIZE
  }
}

/** src/fs/path_parser.c, with strnlen, is_digit and to_numeric_digit of src/string/string.c. */
module PathParsing {
  import opened Links
  import opened Paths

  /** The string that begins at index i of a text and ends before the first NUL. */
  ghost function StringAt(t: string, i: nat): (r: string)
    requires i <= |t|
    ensures i + |r| <= |t| && r == t[i..i + |r|] && '\0' !in r
    ensures i + |r| < |t| ==> t[i + |r|] == '\0'
    decreases |t| - i
  {
    if i == |t| || t[i] == '\0' then "" else [t[i]] + StringAt(t, i + 1)
  }

  lemma {:induction false} StringFrom(t: string, i: nat, n: nat)
    requires i <= |t| && n <= |StringAt(t, i)|
    ensures StringAt(t, i)[n..] == StringAt(t, i + n)
    decreases n
  {
    if n > 0 { StringFrom(t, i + 1, n - 1); }
  }

  /** A char ** argument: a text that ends with a NUL, and the place in it that is moved. */
  class PathPointer {
    const text: string
    var path: nat

    ghost predicate Valid()
      reads this
    {
      path < |text| && text[|text| - 1] == '\0'
    }

    /** The string the pointer points at. */
    ghost function Rest(): (r: string)
      reads this
      requires Valid()
      ensures path + |r| < |text| && text[path + |r|] == '\0'
    {
      StringAt(text, path)
    }

    constructor (text: string)
      requires |text| > 0 && text[|text| - 1] == '\0'
      ensures Valid() && this.text == text && path == 0
    {
      this.text, path := text, 0;
    }
  }

  /** A buffer holds a string and the NUL after it. */
  ghost predicate Holds(buffer: array<char>, s: string)
    reads buffer
  {
    |s| < buffer.Length && buffer[..|s|] == s && buffer[|s|] == '\0'
  }

  /** The heap as the parser uses it: requests for a block or less each, and how many are in use. */
  class SmallBlocks {
    var taken: nat

    constructor ()
      ensures taken == 0
    {
      taken := 0;
    }

    method Kzalloc()
      modifies this
      ensures taken == old(taken) + 1
    {
      taken := taken + 1;
    }

    method Kfree()
      requires taken > 0
      modifies this
      ensures taken == old(taken) - 1
    {
      taken := taken - 1;
    }
  }

  class PathPart {
    const part: array<char>
    var next: PathPart?

    constructor (part: array<char>)
      ensures this.part == part && next == null
    {
      this.part, next := part, null;
    }
  }

  class PathRoot {
    var drivePath: int
    var first: PathPart?

    constructor (drivePath: int)
      ensures this.drivePath == drivePath && first == null
    {
      this.drivePath, first := drivePath, null;
    }
  }

  ghost function NodeAt(nodes: seq<PathPart>, i: nat): PathPart? {
    if i < |nodes| then nodes[i] else null
  }

  /** The nodes, linked one to the next, and the last to none. */
  ghost predicate Chained(nodes: seq<PathPart>)
    reads nodes
  {
    forall i {:trigger NodeAt(nodes, i + 1)} :: 0 <= i < |nodes| ==> nodes[i].next == NodeAt(nodes, i + 1)
  }

  /** The i-th node's buffer holds the i-th component. */
  ghost predicate Spells(nodes: seq<PathPart>, parts: seq<string>)
    reads set i | 0 <= i < |nodes| :: nodes[i].part
  {
    |nodes| == |parts| && forall i :: 0 <= i < |nodes| ==> Holds(nodes[i].part, parts[i])
  }

  method Strnlen(text: string, ptr: nat, max: nat) returns (i: nat)
    requires ptr < |text| && text[|text| - 1] == '\0'
    ensures i == if |StringAt(text, ptr)| < max then |StringAt(text, ptr)| else max
  {
    i := 0;
    var p := ptr;
    ghost var s := StringAt(text, ptr);
    while i < max
      invariant i <= max && i <= |s| && p == ptr + i && p < |text|
    {
      if text[p] == '\0' { break; }
      assert i < |s|;
      p := p + 1;
      i := i + 1;
    }
  }

  method PathValidFormat(text: string, str: nat) returns (ok: bool)
    requires str < |text| && text[|text| - 1] == '\0'
    ensures ok == ValidFormat(StringAt(text, str))
  {
    var len := Strnlen(text, str, MAX_PATH);
    if len <= 3 { return false; }
    ghost var s := StringAt(text, str);
    if !IsDigit(text[str]) { return false; }
    assert text[str + 1..str + 3] == [s[1], s[2]];
    ok := text[str + 1..str + 3] == ":/";
  }

  /** The drive number, the pointer then past the slash; or -1, and the pointer where it was. */
  method GetDriveByPath(p: PathPointer) returns (drive: int)
    requires p.Valid()
    modifies p
    ensures p.Valid()
    ensures drive == Parse(old(p.Rest())).drive
    ensures p.Rest() == if drive >= 0 then old(p.Rest())[3..] else old(p.Rest())
  {
    var ok := PathValidFormat(p.text, p.path);
    if !ok { return -1; }
    drive := p.text[p.path] as int - '0' as int;
    StringFrom(p.text, p.path, 3);
    p.path := p.path + 3;
  }

  /** How far one component reaches, with the slash after it. */
  ghost function Stride(s: string): (r: nat)
    ensures r <= |s|
  {
    if Slash(s, 0) < |s| then Slash(s, 0) + 1 else |s|
  }

  /** The parts of a text by its first slash. */
  lemma PartsSplit(s: string)
    ensures Slash(s, 0) == 0 ==> Parts(s) == [] && Consumed(s) == Stride(s)
    ensures Slash(s, 0) > 0 ==> Parts(s) == [s[..Slash(s, 0)]] + Parts(s[Stride(s)..])
    ensures Slash(s, 0) > 0 ==> Consumed(s) == Stride(s) + Consumed(s[Stride(s)..])
  {
    var n := Slash(s, 0);
    if n == |s| > 0 {
      NoParts();
      assert s[..n] == s && s[n..] == "";
    }
  }

  /** The loop of pathparser_get_path_part: the characters before the slash or the NUL. */
  method CopyComponent(p: PathPointer, buffer: array<char>) returns (i: nat)
    requires p.Valid() && Slash(p.Rest(), 0) < BUFFER_SIZE == buffer.Length
    modifies p, buffer
    ensures p.Valid() && i == Slash(old(p.Rest()), 0) && p.Rest() == old(p.Rest())[i..]
    ensures Holds(buffer, old(p.Rest())[..i])
  {
    hide Slash, StringAt;
    ghost var s, start := p.Rest(), p.path;
    i := 0;
    while p.text[p.path] != '/' && p.text[p.path] != '\0'
      invariant p.Valid() && p.path == start + i && i <= Slash(s, 0)
      invariant forall k :: 0 <= k < i ==> buffer[k] == s[k]
      decreases |s| - i
    {
      assert s[i] == p.text[p.path];
      buffer[i] := p.text[p.path];
      p.path := p.path + 1;
      i := i + 1;
    }
    assert i == Slash(s, 0);
    buffer[i] := '\0';
    StringFrom(p.text, start, i);
  }

  /** Behind a component, a text goes on after its slash. */
  lemma SlashNext(t: string, i: nat, s: string)
    requires i < |t| && t[|t| - 1] == '\0' && StringAt(t, i) == s[Slash(s, 0)..]
    ensures t[i] == '/' ==> i + 1 < |t| && StringAt(t, i + 1) == s[Stride(s)..]
    ensures t[i] != '/' ==> StringAt(t, i) == s[Stride(s)..]
  {
    var n := Slash(s, 0);
    if t[i] == '/' {
      StringFrom(t, i, 1);
      assert s[n..][1..] == s[n + 1..];
    }
  }

  /** The next component in a node of its own; null when it is empty, and its buffer is then lost. The
      slash after it is consumed. */
  method GetPathPart(p: PathPointer, heap: SmallBlocks) returns (node: PathPart?)
    requires p.Valid() && Slash(p.Rest(), 0) < BUFFER_SIZE
    modifies p, heap
    ensures heap.taken == old(heap.taken) + if node == null then 1 else 2
    ensures p.Valid() && p.Rest() == old(p.Rest())[Stride(old(p.Rest()))..]
    ensures node == null <==> Slash(old(p.Rest()), 0) == 0
    ensures node != null ==>
              && fresh(node) && fresh(node.part) && node.next == null
              && Holds(node.part, old(p.Rest())[..Slash(old(p.Rest()), 0)])
  {
    hide Slash, StringAt, Holds, Stride;
    heap.Kzalloc();
    heap.Kzalloc();
    var buffer := new char[BUFFER_SIZE](_ => '\0');
    ghost var s := p.Rest();
    var i := CopyComponent(p, buffer);
    SlashNext(p.text, p.path, s);
    if p.text[p.path] == '/' { p.path := p.path + 1; }
    if i == 0 {
      heap.Kfree();
      return null;
    }
    node := new PathPart(buffer);
  }

  lemma FitsNext(s: string)
    requires FitsBuffers(Parts(s))
    ensures Slash(s, 0) < BUFFER_SIZE
    ensures Slash(s, 0) > 0 ==> FitsBuffers(Parts(s[Stride(s)..]))
  {
    hide Parts;
    PartsSplit(s);
    var n := Slash(s, 0);
    if n > 0 {
      var rest := Parts(s[Stride(s)..]);
      assert s[..n] in Parts(s);
      assert forall p :: p in rest ==> p in Parts(s);
    }
  }

  ghost function Last(nodes: seq<PathPart>): PathPart?
  {
    if nodes == [] then null else nodes[|nodes| - 1]
  }

  /** A linked list of different nodes, one for each part. */
  ghost predicate ListOf(nodes: seq<PathPart>, parts: seq<string>)
    reads set n | n in nodes
    reads set i | 0 <= i < |nodes| :: nodes[i].part
  {
    Distinct(nodes) && Chained(nodes) && Spells(nodes, parts)
  }

  lemma OneMoreNode(nodes: seq<PathPart>, done: seq<string>, node: PathPart, part: string)
    requires Spells(nodes, done) && Distinct(nodes) && Holds(node.part, part) && node !in nodes
    ensures Spells(nodes + [node], done + [part]) && Distinct(nodes + [node])
  {
    hide Holds;
  }

  /** Linking what was parsed to the last node makes it the last. */
  method LinkLast(ghost nodes: seq<PathPart>, current: PathPart, next: PathPart?)
    requires Chained(nodes) && Distinct(nodes) && Last(nodes) == current
    requires next != null ==> next !in nodes && next.next == null
    modifies current`next
    ensures Chained(if next == null then nodes else nodes + [next])
  {
    current.next := next;
    ghost var all := if next == null then nodes else nodes + [next];
    forall i | 0 <= i < |all| ensures all[i].next == NodeAt(all, i + 1) {
      if i + 1 < |nodes| { assert NodeAt(nodes, i + 1) == nodes[i + 1]; }
    }
  }

  ghost function Extended(nodes: seq<PathPart>, node: PathPart?): seq<PathPart> {
    if node == null then nodes else nodes + [node]
  }

  ghost function PartsAfter(done: seq<string>, s: string): seq<string> {
    if Slash(s, 0) == 0 then done else done + [s[..Slash(s, 0)]]
  }

  /** The list after the first call. */
  lemma FirstNode(node: PathPart?, s: string)
    requires node == null <==> Slash(s, 0) == 0
    requires node != null ==> node.next == null && Holds(node.part, s[..Slash(s, 0)])
    ensures ListOf(Extended([], node), PartsAfter([], s)) && NodeAt(Extended([], node), 0) == node ==
            Last(Extended([], node))
  {
    hide Holds, Slash;
    if node != null { assert NodeAt([] + [node], 1) == null; }
  }

  /** The body of the loop of pathparser_create_path_part. */
  method NextPart(p: PathPointer, heap: SmallBlocks, current: PathPart, ghost nodes: seq<PathPart>,
      ghost done: seq<string>) returns (next: PathPart?)
    requires p.Valid() && Slash(p.Rest(), 0) < BUFFER_SIZE && ListOf(nodes, done) && Last(nodes) == current
    modifies p, heap, current`next
    ensures heap.taken == old(heap.taken) + if next == null then 1 else 2
    ensures p.Valid() && p.Rest() == old(p.Rest())[Stride(old(p.Rest()))..]
    ensures next == null <==> Slash(old(p.Rest()), 0) == 0
    ensures next != null ==> fresh(next)
    ensures ListOf(Extended(nodes, next), PartsAfter(done, old(p.Rest())))
    ensures NodeAt(Extended(nodes, next), 0) == NodeAt(nodes, 0)
    ensures next != null ==> Last(Extended(nodes, next)) == next
  {
    hide Slash, StringAt, Holds, Stride, Chained, Spells, Distinct;
    ghost var s := p.Rest();
    next := GetPathPart(p, heap);
    LinkLast(nodes, current, next);
    if next != null { OneMoreNode(nodes, done, next, s[..Slash(s, 0)]); }
  }

  /** pathparser_create_path_part: a list of nodes, one for each component. It takes two blocks for each,
      and loses one more. */
  method CreatePathPart(p: PathPointer, heap: SmallBlocks) returns (first: PathPart?, ghost nodes: seq<PathPart>)
    requires p.Valid() && FitsBuffers(Parts(p.Rest()))
    modifies p, heap
    ensures heap.taken == old(heap.taken) + 2 * |nodes| + 1
    ensures p.Valid() && p.Rest() == old(p.Rest())[Consumed(old(p.Rest()))..]
    ensures fresh(set n | n in nodes) && first == NodeAt(nodes, 0) && ListOf(nodes, Parts(old(p.Rest())))
  {
    hide Slash, StringAt, Parts, Consumed, Holds, FitsBuffers, Stride, ListOf, PathPointer.Rest;
    hide PartsAfter, NodeAt;
    ghost var s, done := p.Rest(), [];
    FitsNext(s);
    OneStride(s, []);
    ghost var taken := heap.taken;
    first := GetPathPart(p, heap);
    var current := first;
    FirstNode(current, s);
    nodes, done := Extended([], current), PartsAfter([], s);
    assert [] + Parts(s) == Parts(s);
    ghost var end, rest := s[Consumed(s)..], p.Rest();
    while current != null
      invariant p.Valid() && p.Rest() == rest && first == NodeAt(nodes, 0)
      invariant heap.taken == taken + 2 * |nodes| + if current == null then 1 else 0
      invariant current != null ==> FitsBuffers(Parts(rest)) && Last(nodes) == current
      invariant Parts(s) == if current == null then done else done + Parts(rest)
      invariant end == if current == null then rest else rest[Consumed(rest)..]
      invariant fresh(set n | n in nodes) && ListOf(nodes, done)
      decreases |rest|, current != null
    {
      FitsNext(rest);
      OneStride(rest, done);
      current := NextPart(p, heap, current, nodes, done);
      nodes, done, rest := Extended(nodes, current), PartsAfter(done, rest), p.Rest();
    }
  }

  /** One component further: the parts that remain, and the place where parsing will end. */
  lemma OneStride(s: string, done: seq<string>)
    ensures Slash(s, 0) > 0 ==> Stride(s) > 0
    ensures var rest := s[Stride(s)..];
            && done + Parts(s) == (if Slash(s, 0) == 0 then PartsAfter(done, s) else PartsAfter(done, s) + Parts(rest))
            && s[Consumed(s)..] == if Slash(s, 0) == 0 then rest else rest[Consumed(rest)..]
  {
    hide Parts, Consumed, Slash;
    PartsSplit(s);
  }

  /** Pathparser_parse: the drive, and one node for each component; the pointer ends after what was
      parsed. Every component needs to fit its buffer of BUFFER_SIZE characters. */
  method PathparserParse(p: PathPointer, heap: SmallBlocks) returns (root: PathRoot, ghost nodes: seq<PathPart>)
    requires p.Valid() && FitsBuffers(Parse(p.Rest()).parts)
    modifies p, heap
    ensures heap.taken == old(heap.taken) + 2 + 2 * |nodes|
    ensures fresh(root) && root.drivePath == Parse(old(p.Rest())).drive
    ensures root.first == NodeAt(nodes, 0) && ListOf(nodes, Parse(old(p.Rest())).parts)
    ensures var s := old(p.Rest());
            p.Valid() && p.Rest() == if ValidFormat(s) then s[3..][Consumed(s[3..])..] else s[Consumed(s)..]
  {
    hide Slash, StringAt, Parts, Consumed, FitsBuffers, ListOf, PathPointer.Rest;
    heap.Kzalloc();
    var drive := GetDriveByPath(p);
    root := new PathRoot(drive);
    var first;
    first, nodes := CreatePathPart(p, heap);
    root.first := first;
  }

  /** A text ended by a NUL is read back whole. */
  lemma {:induction false} StringIs(s: string, i: nat)
    requires i <= |s| && '\0' !in s
    ensures StringAt(s + "\0", i) == s[i..]
    decreases |s| - i
  {
    if i < |s| { StringIs(s, i + 1); }
  }

  /** From text to text: the parser, set on a drive and components written out, reads all of it and
      returns that drive and those components. */
  method ParseWritten(drive: char, parts: seq<string>) returns (root: PathRoot, ghost nodes: seq<PathPart>)
    requires IsDigit(drive) && Components(parts) && parts != []
    requires forall p :: p in parts ==> |p| < BUFFER_SIZE && '\0' !in p
    ensures root.drivePath == drive as int - '0' as int && root.first == NodeAt(nodes, 0) && ListOf(nodes, parts)
  {
    hide Join, StringAt, Parse, ListOf;
    var s := [drive] + ":/" + Join(parts);
    JoinNoNul(parts);
    StringIs(s, 0);
    ParseRoundTrip(drive, parts);
    var p := new PathPointer(s + "\0");
    assert s[0..] == s;
    var heap := new SmallBlocks();
    root, nodes := PathparserParse(p, heap);
  }

  lemma {:induction false} JoinNoNul(parts: seq<string>)
    requires forall p :: p in parts ==> '\0' !in p
    ensures '\0' !in Join(parts)
  {
    if |parts| > 1 { JoinNoNul(parts[1..]); }
  }
}
