/**
 Directory contents and path names as data (fs.c): a directory is a finite map
 from names of at most 14 characters to inode numbers, a path is a list of such
 names.
 */
module Names {
  import opened Base
  import opened Blocks
  import FD = FileData

  const DIRSIZ: nat := 14
  const DIRENT: nat := 16        // sizeof(struct dirent)
  const SLASH: byte := 47

  // ------------------------------------------------------------------- names

  /** What counts of a name: its characters before the first NUL, up to `n` of them. */
  function Prefix(s: seq<byte>, n: nat): (k: seq<byte>)
    ensures |k| <= n && k <= s && 0 !in k && (|k| == n || |k| == |s| || s[|k|] == 0)
  {
    if n == 0 || s == [] || s[0] == 0 then [] else [s[0]] + Prefix(s[1..], n - 1)
  }

  function Key(s: seq<byte>): (k: seq<byte>)
    ensures |k| <= 14 && k <= s && 0 !in k && (|k| == 14 || |k| == |s| || s[|k|] == 0)
  {
    Prefix(s, DIRSIZ)
  }

  /** `s[i]` of a string that ends, at the latest, with the NUL behind its last byte. */
  function At(s: seq<byte>, i: nat): byte {
    if i < |s| then s[i] else 0
  }

  lemma {:induction false} PrefixEqual(s: seq<byte>, t: seq<byte>, n: nat, i: nat)
    requires i <= n && i <= |s| && i <= |t| && forall j | 0 <= j < i :: s[j] == t[j] != 0
    requires i == n || At(s, i) == 0 || At(s, i) != At(t, i)
    ensures Prefix(s, n) == Prefix(t, n) <==> i == n || At(s, i) == At(t, i)
  {
    if i > 0 {
      PrefixEqual(s[1..], t[1..], n - 1, i - 1);
      assert Prefix(s, n) == [s[0]] + Prefix(s[1..], n - 1) && Prefix(t, n) == [t[0]] + Prefix(t[1..], n - 1);
      if Prefix(s, n) == Prefix(t, n) {
        assert Prefix(s, n)[1..] == Prefix(s[1..], n - 1) && Prefix(t, n)[1..] == Prefix(t[1..], n - 1);
      }
    }
  }

  /** namecmp(s, t) == 0, by the loop of strncmp */
  method Namecmp(s: seq<byte>, t: seq<byte>) returns (same: bool)
    ensures same <==> Key(s) == Key(t)
  {
    var i := 0;
    while i < DIRSIZ && At(s, i) != 0 && At(s, i) == At(t, i)
      invariant i <= DIRSIZ && i <= |s| && i <= |t| && forall j | 0 <= j < i :: s[j] == t[j] != 0
    {
      i := i + 1;
    }
    PrefixEqual(s, t, DIRSIZ, i);
    same := i == DIRSIZ || At(s, i) == At(t, i);
  }

  /** strncpy(de.name, name, DIRSIZ) */
  method Strncpy(t: seq<byte>) returns (s: seq<byte>)
    ensures |s| == DIRSIZ && Key(s) == Key(t)
  {
    s := [];
    while |s| < DIRSIZ && At(t, |s|) != 0
      invariant |s| <= DIRSIZ && |s| <= |t| && forall j | 0 <= j < |s| :: s[j] == t[j] != 0
    {
      s := s + [At(t, |s|)];
    }
    ghost var n := |s|;
    ghost var head := s;
    while |s| < DIRSIZ
      invariant n <= |s| <= DIRSIZ && s[..n] == head && forall j | n <= j < |s| :: s[j] == 0
    {
      s := s + [0];
    }
    assert forall j | 0 <= j < n :: s[j] == head[j];
    PrefixEqual(s, t, DIRSIZ, n);
  }

  // ------------------------------------------------------------- directories

  ghost predicate WholeEntries(c: seq<byte>) {
    |c| % DIRENT == 0
  }

  function Entries(c: seq<byte>): nat { |c| / DIRENT }

  function Inum(c: seq<byte>, e: nat): nat
    requires e < Entries(c)
  {
    c[16*e] as int + c[16*e+1] as int * 0x100
  }

  function Name(c: seq<byte>, e: nat): seq<byte>
    requires e < Entries(c)
  {
    c[16*e+2..16*e+16]
  }

  /** Entry `e` is in use and has that key. */
  ghost predicate Has(c: seq<byte>, e: nat, key: seq<byte>) {
    e < Entries(c) && Inum(c, e) != 0 && Key(Name(c, e)) == key
  }

  ghost predicate Unique(c: seq<byte>) {
    forall e, f, key | Has(c, e, key) && Has(c, f, key) :: e == f
  }

  ghost function KeySet(c: seq<byte>): (ks: set<seq<byte>>)
    ensures forall key :: key in ks <==> exists e :: Has(c, e, key)
  {
    var ks := set e: nat | e < Entries(c) && Inum(c, e) != 0 :: Key(Name(c, e));
    assert forall e, key | Has(c, e, key) :: key in ks;
    assert forall key | key in ks :: exists e :: Has(c, e, key) by {
      forall key | key in ks ensures exists e :: Has(c, e, key) {
        var e: nat :| e < Entries(c) && Inum(c, e) != 0 && key == Key(Name(c, e));
        assert Has(c, e, key);
      }
    }
    ks
  }

  ghost function IndexOf(c: seq<byte>, key: seq<byte>): (e: nat)
    requires key in KeySet(c)
    ensures Has(c, e, key)
  {
    var e: nat :| Has(c, e, key); e
  }

  /** The directory as a map. */
  ghost function Dir(c: seq<byte>): (m: map<seq<byte>, nat>)
    ensures m.Keys == KeySet(c)
  {
    map key | key in KeySet(c) :: Inum(c, IndexOf(c, key))
  }

  lemma DirAt(c: seq<byte>, e: nat, key: seq<byte>)
    requires Unique(c) && Has(c, e, key)
    ensures key in Dir(c) && Dir(c)[key] == Inum(c, e)
  {
  }

  /** `struct dirent` as bytes */
  function Dirent(inum: nat, name: seq<byte>): (de: seq<byte>)
    requires |name| == DIRSIZ
    ensures |de| == DIRENT
  {
    [inum % 0x100, inum / 0x100 % 0x100] + name
  }

  lemma EntryWritten(c: seq<byte>, e: nat, inum: nat, name: seq<byte>, f: nat)
    requires WholeEntries(c) && e <= Entries(c) && |name| == DIRSIZ
    ensures e * DIRENT <= |c|
    ensures var c1 := FD.Overwrite(c, e * DIRENT, Dirent(inum, name));
      && WholeEntries(c1) && Entries(c1) == (if e == Entries(c) then e + 1 else Entries(c))
      && (f == e ==> Inum(c1, e) == inum % SHORT && Name(c1, e) == name)
      && (f != e && f < Entries(c) ==> Inum(c1, f) == Inum(c, f) && Name(c1, f) == Name(c, f))
  {
    var c1 := FD.Overwrite(c, e * DIRENT, Dirent(inum, name));
    if f != e && f < Entries(c) {
      assert c1[16*f..16*f+16] == c[16*f..16*f+16];
      assert c1[16*f+2..16*f+16] == c1[16*f..16*f+16][2..] && c[16*f+2..16*f+16] == c[16*f..16*f+16][2..];
    }
  }

  /**
   Writing an entry for a new name into a free place extends the map by it, or not at all if the
   number is 0 as a short.
   */
  lemma Linked(c: seq<byte>, e: nat, inum: nat, name: seq<byte>)
    requires WholeEntries(c) && Unique(c) && e <= Entries(c) && (e < Entries(c) ==> Inum(c, e) == 0)
    requires |name| == DIRSIZ && Key(name) !in Dir(c)
    ensures e * DIRENT <= |c|
    ensures var c1 := FD.Overwrite(c, e * DIRENT, Dirent(inum, name));
      && WholeEntries(c1) && Unique(c1)
      && Dir(c1) == if inum % SHORT == 0 then Dir(c) else Dir(c)[Key(name) := inum % SHORT]
  {
    EntryWritten(c, e, inum, name, e);
    var c1 := FD.Overwrite(c, e * DIRENT, Dirent(inum, name));
    forall f: nat, key
      ensures Has(c1, f, key) <==> if f == e then inum % SHORT != 0 && key == Key(name) else Has(c, f, key)
      ensures f != e && Has(c, f, key) ==> Inum(c1, f) == Inum(c, f)
    {
      EntryWritten(c, e, inum, name, f);
    }
    LinkedMap(c, c1, e, inum % SHORT, Key(name));
  }

  lemma LinkedMap(c: seq<byte>, c1: seq<byte>, e: nat, inum: nat, new1: seq<byte>)
    requires Unique(c) && new1 !in Dir(c) && (inum != 0 ==> e < Entries(c1) && Inum(c1, e) == inum)
    requires forall f: nat, key :: Has(c1, f, key) <==> if f == e then inum != 0 && key == new1 else Has(c, f, key)
    requires forall f: nat, key | f != e && Has(c, f, key) :: f < Entries(c1) && Inum(c1, f) == Inum(c, f)
    requires forall key :: !Has(c, e, key)
    ensures Unique(c1) && Dir(c1) == if inum == 0 then Dir(c) else Dir(c)[new1 := inum]
  {
    hide Entries, Inum, Name, Key;
    assert forall f :: !Has(c, f, new1);
    var m := if inum == 0 then Dir(c) else Dir(c)[new1 := inum];
    forall key ensures key in Dir(c1) <==> key in m {
      if key in Dir(c) {
        var f: nat :| Has(c, f, key);
        assert Has(c1, f, key);
      }
      if key == new1 && inum != 0 {
        assert Has(c1, e, key);
      }
    }
    assert Unique(c1);
    forall key | key in m ensures Dir(c1)[key] == m[key] {
      var f: nat :| Has(c1, f, key);
      DirAt(c1, f, key);
      if f != e {
        DirAt(c, f, key);
      }
    }
  }

  // ------------------------------------------------------------------- paths

  /** The path without its leading slashes. */
  function Stripped(path: seq<byte>): (p: seq<byte>)
    ensures p == [] || p[0] != SLASH
    ensures |p| <= |path|
  {
    if path != [] && path[0] == SLASH then Stripped(path[1..]) else path
  }

  /** Length of the first element of a path that has no leading slash. */
  function ElemLen(path: seq<byte>): (n: nat)
    ensures n <= |path| && (path != [] && path[0] != SLASH ==> n > 0)
    ensures (forall i | 0 <= i < n :: path[i] != SLASH) && (n < |path| ==> path[n] == SLASH)
  {
    if path == [] || path[0] == SLASH then 0 else 1 + ElemLen(path[1..])
  }

  /** The names on the path, truncated as the kernel truncates them. */
  function Components(path: seq<byte>): (cs: seq<seq<byte>>)
    decreases |path|
  {
    var p := Stripped(path);
    if p == [] then [] else [Key(p[..ElemLen(p)])] + Components(p[ElemLen(p)..])
  }

  lemma {:induction false} StrippedComponents(path: seq<byte>)
    ensures Components(Stripped(path)) == Components(path) && Stripped(Stripped(path)) == Stripped(path)
  {
    if path != [] && path[0] == SLASH {
      StrippedComponents(path[1..]);
    }
  }

  /** Splitting is undone by writing the names one after the other, each behind a slash, if none is too long. */
  function Joined(cs: seq<seq<byte>>): seq<byte> {
    if cs == [] then [] else [SLASH] + cs[0] + Joined(cs[1..])
  }

  ghost predicate Proper(cs: seq<seq<byte>>) {
    forall i | 0 <= i < |cs| :: cs[i] != [] && Key(cs[i]) == cs[i] && SLASH !in cs[i]
  }

  lemma {:induction false} ComponentsJoined(cs: seq<seq<byte>>)
    requires Proper(cs)
    ensures Components(Joined(cs)) == cs
  {
    if cs != [] {
      var c, rest := cs[0], Joined(cs[1..]);
      ComponentsJoined(cs[1..]);
      var path := [SLASH] + c + rest;
      assert path[1..] == c + rest;
      var p := c + rest;
      assert Stripped(path) == Stripped(path[1..]) == p;
      ElemOf(c, rest);
      assert p[..|c|] == c && p[|c|..] == rest;
    }
  }

  /**
   What splitting a path means: slashes separate, in any number, at the front, between and
   at the end, and an element counts up to 14 characters. These cases cover every path.
   */
  lemma ComponentsLaws(e: seq<byte>, path: seq<byte>)
    ensures Components([]) == [] && Components([47] + path) == Components(path)
    ensures e != [] && 47 !in e && 0 !in e && (path == [] || path[0] == 47) ==>
      Components(e + path) == [if |e| > 14 then e[..14] else e] + Components(path)
  {
    assert ([47] + path)[1..] == path;
    StrippedComponents([47] + path);
    StrippedComponents(path);
    if e != [] && 47 !in e && 0 !in e && (path == [] || path[0] == 47) {
      ElemOf(e, path);
      PrefixPlain(e, DIRSIZ);
      assert (e + path)[..|e|] == e && (e + path)[|e|..] == path;
    }
  }

  lemma {:induction false} ElemOf(c: seq<byte>, rest: seq<byte>)
    requires SLASH !in c && (rest == [] || rest[0] == SLASH)
    ensures ElemLen(c + rest) == |c|
  {
    if c != [] {
      ElemOf(c[1..], rest);
      assert (c + rest)[1..] == c[1..] + rest;
    } else {
      assert c + rest == rest;
    }
  }

  datatype Elem = NoElem | Elem(rest: seq<byte>, name: seq<byte>)

  /** skipelem: the first name of the path and what follows it and its slashes. */
  method SkipElem(path0: seq<byte>) returns (r: Elem)
    requires 0 !in path0
    ensures r.NoElem? <==> Components(path0) == []
    ensures r.Elem? ==> Components(path0) == [r.name] + Components(r.rest) && |r.rest| < |path0| && 0 !in r.rest
    ensures r.Elem? ==> (r.rest == [] <==> Components(r.rest) == []) && r.name == Key(r.name)
  {
    var path := path0;
    while At(path, 0) == SLASH
      invariant Stripped(path) == Stripped(path0) && |path| <= |path0| && 0 !in path
      decreases |path|
    {
      path := path[1..];
    }
    assert path == Stripped(path0);
    if At(path, 0) == 0 {
      return NoElem;
    }
    var s := path;
    var len := 0;
    while At(path, 0) != SLASH && At(path, 0) != 0
      invariant len <= |s| && path == s[len..] && len + ElemLen(path) == ElemLen(s) && 0 !in path
      decreases |path|
    {
      path := path[1..];
      len := len + 1;
    }
    assert len == ElemLen(s);
    var name := if len >= DIRSIZ then s[..DIRSIZ] else s[..len];
    NameKey(s, len, name);
    ghost var after := path;
    StrippedComponents(after);
    while At(path, 0) == SLASH
      invariant Stripped(path) == Stripped(after) && |path| <= |after| && 0 !in path
      decreases |path|
    {
      path := path[1..];
    }
    assert path == Stripped(after);
    r := Elem(path, name);
  }

  lemma NameKey(s: seq<byte>, len: nat, name: seq<byte>)
    requires len <= |s| && 0 !in s && name == if len >= DIRSIZ then s[..DIRSIZ] else s[..len]
    ensures name == Key(s[..len]) == Key(name)
  {
    PrefixPlain(s[..len], DIRSIZ);
    PrefixPlain(name, DIRSIZ);
  }

  lemma {:induction false} PrefixPlain(s: seq<byte>, n: nat)
    requires 0 !in s
    ensures Prefix(s, n) == if |s| <= n then s else s[..n]
  {
    if n > 0 && s != [] {
      PrefixPlain(s[1..], n - 1);
    }
  }
}
