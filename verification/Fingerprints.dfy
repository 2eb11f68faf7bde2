/** The fingerprint of a set of servers: their names, sorted, each once, joined by commas. */
module Fingerprints {
  import opened Wrappers
  import opened HoleModel

  // ---- Joined names ---------------------------------------------------------------

  function Join(names: seq<string>): string {
    if names == [] then ""
    else if |names| == 1 then names[0]
    else names[0] + "," + Join(names[1..])
  }

  /** A string cut at its commas; one that has none is one piece. */
  function Split(s: string): (r: seq<string>)
    ensures r != []
  {
    if s == "" then [""]
    else
      var rest := Split(s[1..]);
      if s[0] == ',' then [""] + rest else [[s[0]] + rest[0]] + rest[1..]
  }

  /** The names, each cut at its commas; no name at all reads as one empty name. */
  function Pieces(names: seq<string>): (r: seq<string>) {
    if names == [] then [""]
    else if |names| == 1 then Split(names[0])
    else Split(names[0]) + Pieces(names[1..])
  }

  lemma {:induction false} SplitAtComma(x: string, y: string)
    ensures Split(x + "," + y) == Split(x) + Split(y)
  {
    var s := x + "," + y;
    if x == "" {
      assert s[0] == ',' && s[1..] == y;
    } else {
      SplitAtComma(x[1..], y);
      assert s[0] == x[0] && s[1..] == x[1..] + "," + y;
    }
  }

  lemma {:induction false} SplitOfJoin(names: seq<string>)
    ensures Split(Join(names)) == Pieces(names)
  {
    if |names| > 1 {
      SplitAtComma(names[0], Join(names[1..]));
      SplitOfJoin(names[1..]);
    }
  }

  lemma {:induction false} JoinOfSplit(s: string)
    ensures Join(Split(s)) == s
  {
    if s != "" {
      var rest := Split(s[1..]);
      JoinOfSplit(s[1..]);
      if s[0] == ',' {
        assert Split(s)[1..] == rest;
        assert s == [] + "," + s[1..];
      } else {
        FirstLetter(s[0], rest);
        assert s == [s[0]] + s[1..];
      }
    }
  }

  lemma FirstLetter(c: char, rest: seq<string>)
    requires rest != []
    ensures Join([[c] + rest[0]] + rest[1..]) == [c] + Join(rest)
  {
    var more := [[c] + rest[0]] + rest[1..];
    assert more[1..] == rest[1..];
  }

  /** Two lists of any names look alike exactly when they agree once every name is cut at
      its commas. */
  lemma JoinedAlikeExactlyWhen(a: seq<string>, b: seq<string>)
    ensures Join(a) == Join(b) <==> Pieces(a) == Pieces(b)
  {
    SplitOfJoin(a);
    SplitOfJoin(b);
    JoinOfSplit(Join(a));
    JoinOfSplit(Join(b));
    hide *;
  }

  ghost predicate CommaFree(names: seq<string>) {
    forall i :: 0 <= i < |names| ==> ',' !in names[i]
  }

  lemma {:induction false} SplitOfOne(s: string)
    requires ',' !in s
    ensures Split(s) == [s]
  {
    if s != "" {
      SplitOfOne(s[1..]);
      assert s == [s[0]] + s[1..];
    }
  }

  lemma {:induction false} PiecesOfCommaFree(names: seq<string>)
    requires CommaFree(names) && names != []
    ensures Pieces(names) == names
  {
    SplitOfOne(names[0]);
    if |names| > 1 {
      PiecesOfCommaFree(names[1..]);
    }
  }

  /** For names without commas the joined names tell any two lists apart, except the empty
      one from the one that holds only the empty name. */
  lemma JoinTellsApart(a: seq<string>, b: seq<string>)
    requires CommaFree(a) && CommaFree(b)
    ensures Join(a) == Join(b) <==> a == b || (a == [] && b == [""]) || (a == [""] && b == [])
  {
    JoinedAlikeExactlyWhen(a, b);
    assert Pieces([]) == [""];
    if a != [] {
      PiecesOfCommaFree(a);
    }
    if b != [] {
      PiecesOfCommaFree(b);
    }
  }

  // ---- Sorted names ---------------------------------------------------------------

  /** The order of strings, character by character. */
  predicate Less(a: string, b: string) {
    b != "" && (a == "" || a[0] < b[0] || (a[0] == b[0] && Less(a[1..], b[1..])))
  }

  lemma {:induction false} LessIsTotal(a: string, b: string)
    ensures Less(a, b) || a == b || Less(b, a)
    ensures !(Less(a, b) && Less(b, a)) && (Less(a, b) ==> a != b)
  {
    if a != "" && b != "" && a[0] == b[0] {
      LessIsTotal(a[1..], b[1..]);
      assert a == [a[0]] + a[1..] && b == [b[0]] + b[1..];
    }
  }

  lemma {:induction false} LessIsTransitive(a: string, b: string, c: string)
    requires Less(a, b) && Less(b, c)
    ensures Less(a, c)
  {
    if a != "" && a[0] == b[0] == c[0] {
      LessIsTransitive(a[1..], b[1..], c[1..]);
    }
  }

  /** Each name comes after the one before it, so none comes twice. */
  ghost predicate Ascending(names: seq<string>) {
    forall i :: 0 < i < |names| ==> Less(names[i - 1], names[i])
  }

  /** A sorted list with one name more, unless it has it. */
  function Insert(names: seq<string>, name: string): (r: seq<string>)
    ensures forall n :: n in r <==> n in names || n == name
    ensures r != []
    ensures names != [] ==> r[0] == name || r[0] == names[0]
    ensures names == [] ==> r[0] == name
  {
    if names == [] then [name]
    else if name == names[0] then names
    else if Less(name, names[0]) then [name] + names
    else [names[0]] + Insert(names[1..], name)
  }

  lemma {:induction false} InsertAscends(names: seq<string>, name: string)
    requires Ascending(names)
    ensures Ascending(Insert(names, name))
  {
    if names != [] && name != names[0] && !Less(name, names[0]) {
      LessIsTotal(name, names[0]);
      InsertAscends(names[1..], name);
      var rest := Insert(names[1..], name);
      assert Less(names[0], rest[0]);
    }
  }

  /** The names of some servers, sorted, each once. */
  function SortedNames(servers: seq<string>): (r: seq<string>)
    ensures forall n :: n in r <==> n in servers
  {
    if servers == [] then []
    else Insert(SortedNames(servers[..|servers| - 1]), servers[|servers| - 1])
  }

  lemma {:induction false} SortedNamesAscend(servers: seq<string>)
    ensures Ascending(SortedNames(servers))
  {
    if servers != [] {
      SortedNamesAscend(servers[..|servers| - 1]);
      InsertAscends(SortedNames(servers[..|servers| - 1]), servers[|servers| - 1]);
    }
  }

  lemma {:induction false} FirstIsLeast(names: seq<string>, i: nat)
    requires Ascending(names) && 0 < i < |names|
    ensures Less(names[0], names[i])
  {
    if i > 1 {
      FirstIsLeast(names, i - 1);
      LessIsTransitive(names[0], names[i - 1], names[i]);
    }
  }

  lemma LeastIsFirst(names: seq<string>, n: string)
    requires Ascending(names) && n in names
    ensures n == names[0] || Less(names[0], n)
  {
    var i :| 0 <= i < |names| && names[i] == n;
    if i > 0 {
      FirstIsLeast(names, i);
    }
  }

  lemma SameEmptiness(a: seq<string>, b: seq<string>)
    requires forall n :: n in a <==> n in b
    ensures a == [] <==> b == []
  {
    assert a != [] ==> a[0] in a;
    assert b != [] ==> b[0] in b;
  }

  /** A set of names has only one sorted list. */
  lemma {:induction false} AscendingIsUnique(a: seq<string>, b: seq<string>)
    requires Ascending(a) && Ascending(b)
    requires forall n :: n in a <==> n in b
    ensures a == b
    decreases |a|
  {
    SameEmptiness(a, b);
    if a != [] {
      assert a[0] in b && b[0] in a;
      LeastIsFirst(b, a[0]);
      LeastIsFirst(a, b[0]);
      LessIsTotal(a[0], b[0]);
      RestHas(a);
      RestHas(b);
      AscendingIsUnique(a[1..], b[1..]);
      assert a == [a[0]] + a[1..] && b == [b[0]] + b[1..];
    }
  }

  lemma RestHas(names: seq<string>)
    requires Ascending(names) && names != []
    ensures Ascending(names[1..])
    ensures forall n :: n in names[1..] <==> n in names && n != names[0]
  {
    forall n | n in names[1..] ensures n in names && n != names[0] {
      var i :| 0 <= i < |names[1..]| && names[1..][i] == n;
      FirstIsLeast(names, i + 1);
      LessIsTotal(names[0], n);
    }
  }

  // ---- The fingerprint ------------------------------------------------------------

  function ServerFingerprint(servers: seq<string>): string {
    Join(SortedNames(servers))
  }

  /** For any names at all: two lists of servers have one fingerprint exactly when their
      sorted names agree once cut at the commas. */
  lemma FingerprintsAgreeExactlyWhen(a: seq<string>, b: seq<string>)
    ensures ServerFingerprint(a) == ServerFingerprint(b) <==> Pieces(SortedNames(a)) == Pieces(SortedNames(b))
  {
    JoinedAlikeExactlyWhen(SortedNames(a), SortedNames(b));
  }

  /** For names that are not empty and have no comma, that is when they are the same set of
      servers. */
  lemma FingerprintIsTheServerSet(a: seq<string>, b: seq<string>)
    requires CommaFree(a) && CommaFree(b) && "" !in a && "" !in b
    ensures ServerFingerprint(a) == ServerFingerprint(b) <==> Fingerprint(a) == Fingerprint(b)
  {
    var sa, sb := SortedNames(a), SortedNames(b);
    assert CommaFree(sa) && CommaFree(sb) by {
      SortedIsCommaFree(a);
      SortedIsCommaFree(b);
    }
    JoinTellsApart(sa, sb);
    assert "" !in sa && "" !in sb && "" in [""];
    SameNamesSameSet(a, b);
    if Fingerprint(a) == Fingerprint(b) {
      SortedNamesAscend(a);
      SortedNamesAscend(b);
      forall n ensures n in sa <==> n in sb {
        assert n in Fingerprint(a) <==> n in a;
        assert n in Fingerprint(b) <==> n in b;
      }
      AscendingIsUnique(sa, sb);
    }
  }

  lemma SameNamesSameSet(a: seq<string>, b: seq<string>)
    ensures SortedNames(a) == SortedNames(b) ==> Fingerprint(a) == Fingerprint(b)
  {
  }

  lemma SortedIsCommaFree(servers: seq<string>)
    requires CommaFree(servers)
    ensures CommaFree(SortedNames(servers))
  {
    forall i | 0 <= i < |SortedNames(servers)| ensures ',' !in SortedNames(servers)[i] {
      assert SortedNames(servers)[i] in servers;
    }
  }

  /** With a comma in a name two sets of servers can look alike. */
  lemma CommasCollide(x: string, y: string)
    requires Less(x, y) && ',' !in x
    ensures ServerFingerprint([x + "," + y]) == ServerFingerprint([x, y])
    ensures Fingerprint([x + "," + y]) != Fingerprint([x, y])
  {
    var one := x + "," + y;
    assert [one][..0] == [] && [x, y][..1] == [x] && [x][..0] == [];
    assert SortedNames([one]) == [one];
    LessIsTotal(x, y);
    assert SortedNames([x]) == [x];
    assert [x][1..] == [] && [x, y][1..] == [y];
    assert SortedNames([x, y]) == Insert([x], y) == [x] + Insert([], y) == [x, y];
    assert Join([y]) == y;
    assert one in Fingerprint([one]);
    assert |one| != |x| && |one| != |y|;
  }
}
