/**
  The serializer that the binary-cache builder runs over a directory tree
  (`_write_str`, `_serialize_entry` and `serialize_to_nar` in nix/lib/build-binary-cache.py).

  A directory lists its entries in any order; the serializer sorts the names.
 */
module NarWriter {
  import opened Results
  import opened Bytes
  import opened Nar

  function Names(es: seq<Entry>): set<Text> {
    set e | e in es :: e.name
  }

  /** The first entry with the given name. */
  function Find(es: seq<Entry>, n: Text): (r: Option<Node>)
    ensures r.Some? ==> exists i :: 0 <= i < |es| && es[i].node == r.value && es[i].name == n
    ensures r.Some? <==> n in Names(es)
  {
    if es == [] then None
    else if es[0].name == n then assert es[0] in es; Some(es[0].node)
    else
      var r := Find(es[1..], n);
      assert es == [es[0]] + es[1..];
      r
  }

  // ----- Sorted form -----

  /** The tree with every directory's entries sorted by name. */
  function Canon(t: Node): Node
    decreases t, 1
  {
    match t
    case Directory(es) => Directory(CanonEntries(es, Sorted(Names(es))))
    case _ => t
  }

  function CanonEntries(es: seq<Entry>, names: seq<Text>): seq<Entry>
    decreases es, 0, |names|
  {
    if names == [] then []
    else
      var found := Find(es, names[0]);
      (if found.Some? then [Entry(names[0], Canon(found.value))] else []) + CanonEntries(es, names[1..])
  }

  /** Good names, each used once, at every level. */
  predicate WellNamed(t: Node)
    decreases t
  {
    t.Directory? ==>
      && (forall i :: 0 <= i < |t.entries| ==> GoodName(t.entries[i].name) && WellNamed(t.entries[i].node))
      && (forall i, j :: 0 <= i < j < |t.entries| ==> t.entries[i].name != t.entries[j].name)
  }

  /** Sorting makes a well-named tree canonical. */
  lemma {:induction false} CanonIsCanonical(t: Node)
    requires WellNamed(t)
    ensures Canonical(Canon(t))
    decreases t, 1
  {
    if t.Directory? {
      var names := Sorted(Names(t.entries));
      CanonEntriesCanonical(t.entries, names, None);
    }
  }

  lemma {:induction false} CanonEntriesCanonical(es: seq<Entry>, names: seq<Text>, prev: Option<Text>)
    requires Ascending(names) && (names != [] ==> Follows(prev, names[0]))
    requires forall i :: 0 <= i < |names| ==> names[i] in Names(es)
    requires forall i :: 0 <= i < |es| ==> GoodName(es[i].name) && WellNamed(es[i].node)
    ensures CanonicalEntries(CanonEntries(es, names), prev)
    decreases es, 0, |names|
  {
    if names != [] {
      assert names[0] in Names(es);
      var node := Find(es, names[0]).value;
      var i :| 0 <= i < |es| && es[i].node == node && es[i].name == names[0];
      CanonIsCanonical(node);
      var rest := names[1..];
      assert rest != [] ==> Below(names[0], names[1]);
      assert Ascending(rest) by {
        forall a, b | 0 <= a < b < |rest| ensures Below(rest[a], rest[b]) {
          assert Below(names[a + 1], names[b + 1]);
        }
      }
      CanonEntriesCanonical(es, rest, Some(names[0]));
    }
  }

  // ----- The writer -----

  /** Between two moments exactly these strings were written, and their bytes counted. */
  ghost predicate Wrote(out: seq<byte>, size: nat, out': seq<byte>, size': nat, ts: seq<Token>) {
    out' == out + Flatten(ts) && size' == size + |Flatten(ts)|
  }

  lemma WroteNothing(out: seq<byte>, size: nat)
    ensures Wrote(out, size, out, size, [])
  {
    assert out + [] == out;
  }

  lemma WroteOne(out: seq<byte>, size: nat, t: Token)
    ensures Wrote(out, size, out + WriteStr(t.text), size + |WriteStr(t.text)|, [t])
  {
    FlattenCons(t, []);
    assert [t] + [] == [t];
    assert Flatten([t]) == WriteStr(t.text);
  }

  lemma WroteMore(o0: seq<byte>, s0: nat, o1: seq<byte>, s1: nat, o2: seq<byte>, s2: nat, a: seq<Token>, b: seq<Token>)
    requires Wrote(o0, s0, o1, s1, a) && Wrote(o1, s1, o2, s2, b)
    ensures Wrote(o0, s0, o2, s2, a + b)
  {
    FlattenJoin(a, b);
    Assoc(o0, Flatten(a), Flatten(b));
  }

  lemma StrParts(out: seq<byte>, s: Text)
    ensures out + Le(|s|, 8) + s + Zeros(Padding(|s|)) == out + WriteStr(s)
    ensures Padding(|s|) == 0 ==> out + Le(|s|, 8) + s == out + WriteStr(s)
    ensures |Le(|s|, 8)| + |s| + Padding(|s|) == |WriteStr(s)|
  {
  }

  function FileHead(x: bool): seq<Token> {
    if x then [OPEN, TYPE, REGULAR] + [EXECUTABLE, EMPTY] else [OPEN, TYPE, REGULAR]
  }

  lemma FileParts(x: bool, contents: seq<byte>)
    ensures FileHead(x) + [CONTENTS] + [Token(contents)] + [CLOSE] == Tokens(File(x, contents))
  {
  }

  lemma NextToken(before: seq<Token>, ts: seq<Token>, i: nat)
    requires i < |ts|
    ensures before + ts[..i + 1] == before + ts[..i] + [ts[i]]
  {
  }

  class Writer {
    var out: seq<byte>
    var size: nat

    constructor ()
      ensures out == [] && size == 0
    {
      out, size := [], 0;
    }

    method Write(data: seq<byte>)
      modifies this
      ensures out == old(out) + data && size == old(size) + |data|
    {
      out := out + data;
      size := size + |data|;
    }

    /** `_write_str`. */
    method PutStr(s: Text)
      modifies this
      ensures Wrote(old(out), old(size), out, size, [Token(s)])
    {
      StrParts(out, s);
      WroteOne(out, size, Token(s));
      Write(Le(|s|, 8));
      Write(s);
      if Padding(|s|) > 0 {
        Write(Zeros(Padding(|s|)));
      }
    }

    /** Copy a file in chunks of at most 65536 bytes. */
    method Copy(data: seq<byte>)
      modifies this
      ensures out == old(out) + data && size == old(size) + |data|
    {
      var done := 0;
      while done < |data|
        invariant 0 <= done <= |data|
        invariant out == old(out) + data[..done] && size == old(size) + done
      {
        var end := if done + 65536 <= |data| then done + 65536 else |data|;
        assert data[..end] == data[..done] + data[done..end];
        Write(data[done..end]);
        done := end;
      }
      assert data[..done] == data;
    }

    method PutContents(contents: seq<byte>)
      modifies this
      ensures Wrote(old(out), old(size), out, size, [Token(contents)])
    {
      StrParts(out, contents);
      WroteOne(out, size, Token(contents));
      Write(Le(|contents|, 8));
      Copy(contents);
      if Padding(|contents|) > 0 {
        Write(Zeros(Padding(|contents|)));
      }
    }

    method PutToken(t: Token, ghost out0: seq<byte>, ghost size0: nat, ghost before: seq<Token>)
      requires Wrote(out0, size0, out, size, before)
      modifies this
      ensures Wrote(out0, size0, out, size, before + [t])
    {
      PutStr(t.text);
      WroteMore(out0, size0, old(out), old(size), out, size, before, [t]);
    }

    /** Write strings one after the other; `before` has been written since `out0`. */
    method PutTokens(ts: seq<Token>, ghost out0: seq<byte>, ghost size0: nat, ghost before: seq<Token>)
      requires Wrote(out0, size0, out, size, before)
      modifies this
      ensures Wrote(out0, size0, out, size, before + ts)
    {
      assert before + ts[..0] == before;
      for i := 0 to |ts|
        invariant Wrote(out0, size0, out, size, before + ts[..i])
      {
        NextToken(before, ts, i);
        PutToken(ts[i], out0, size0, before + ts[..i]);
      }
      assert ts[..|ts|] == ts;
    }

    method PutSymlink(target: Text)
      modifies this
      ensures Wrote(old(out), old(size), out, size, Tokens(Symlink(target)))
    {
      WroteNothing(out, size);
      PutTokens([OPEN, TYPE, SYMLINK, TARGET, Token(target), CLOSE], old(out), old(size), []);
      assert [] + Tokens(Symlink(target)) == Tokens(Symlink(target));
    }

    method PutFile(x: bool, contents: seq<byte>)
      modifies this
      ensures Wrote(old(out), old(size), out, size, Tokens(File(x, contents)))
    {
      PutHead(x);
      PutTokens([CONTENTS], old(out), old(size), FileHead(x));
      ghost var out1, size1 := out, size;
      PutContents(contents);
      WroteMore(old(out), old(size), out1, size1, out, size, FileHead(x) + [CONTENTS], [Token(contents)]);
      PutTokens([CLOSE], old(out), old(size), FileHead(x) + [CONTENTS] + [Token(contents)]);
      FileParts(x, contents);
    }

    method PutHead(x: bool)
      modifies this
      ensures Wrote(old(out), old(size), out, size, FileHead(x))
    {
      WroteNothing(out, size);
      PutTokens([OPEN, TYPE, REGULAR], old(out), old(size), []);
      assert [] + [OPEN, TYPE, REGULAR] == [OPEN, TYPE, REGULAR];
      if x {
        PutTokens([EXECUTABLE, EMPTY], old(out), old(size), [OPEN, TYPE, REGULAR]);
      }
    }

    method SerializeEntry(t: Node)
      modifies this
      decreases t, 1
      ensures Wrote(old(out), old(size), out, size, Tokens(Canon(t)))
    {
      match t
      case Symlink(target) =>
        PutSymlink(target);
      case Directory(es) =>
        SerializeDirectory(es);
      case File(x, contents) =>
        PutFile(x, contents);
    }

    method SerializeDirectory(es: seq<Entry>)
      modifies this
      decreases es, 1
      ensures Wrote(old(out), old(size), out, size, Tokens(Canon(Directory(es))))
    {
      ghost var open, entries := [OPEN, TYPE, DIRECTORY], EntriesTokens(CanonEntries(es, Sorted(Names(es))));
      WroteNothing(out, size);
      PutTokens([OPEN, TYPE, DIRECTORY], old(out), old(size), []);
      assert [] + open == open;
      SerializeEntries(es, Sorted(Names(es)), old(out), old(size), open);
      PutTokens([CLOSE], old(out), old(size), open + entries);
    }

    /** The entries of a directory; `before` has been written since `out0`. */
    method SerializeEntries(es: seq<Entry>, names: seq<Text>, ghost out0: seq<byte>, ghost size0: nat,
                            ghost before: seq<Token>)
      requires forall i :: 0 <= i < |names| ==> names[i] in Names(es)
      requires Wrote(out0, size0, out, size, before)
      modifies this
      decreases es, 0, |names|
      ensures Wrote(out0, size0, out, size, before + EntriesTokens(CanonEntries(es, names)))
    {
      if names == [] {
        assert before + [] == before;
        return;
      }
      var n := names[0];
      assert n in Names(es);
      var node := Find(es, n).value;
      ghost var head := before + [ENTRY, OPEN, NAME, Token(n), NODE];
      PutTokens([ENTRY, OPEN, NAME, Token(n), NODE], out0, size0, before);
      ghost var out1, size1 := out, size;
      SerializeEntry(node);
      WroteMore(out0, size0, out1, size1, out, size, head, Tokens(Canon(node)));
      PutTokens([CLOSE], out0, size0, head + Tokens(Canon(node)));
      SerializeEntries(es, names[1..], out0, size0, head + Tokens(Canon(node)) + [CLOSE]);
      EntryFirst(es, names, node);
      JoinFour(before, [ENTRY, OPEN, NAME, Token(n), NODE], Tokens(Canon(node)), [CLOSE],
               EntriesTokens(CanonEntries(es, names[1..])));
    }

    /** A whole archive; `size` ends as its length. */
    method SerializeToNar(t: Node)
      requires out == [] && size == 0
      modifies this
      ensures out == Archive(Canon(t)) && size == |out|
    {
      WroteNothing(out, size);
      PutTokens([MAGIC], [], 0, []);
      ghost var out1, size1 := out, size;
      assert [] + [MAGIC] == [MAGIC];
      SerializeEntry(t);
      WroteMore([], 0, out1, size1, out, size, [MAGIC], Tokens(Canon(t)));
      assert [] + Archive(Canon(t)) == Archive(Canon(t));
    }
  }

  lemma JoinFour<T>(w: seq<T>, a: seq<T>, b: seq<T>, c: seq<T>, d: seq<T>)
    ensures w + a + b + c + d == w + (a + b + c + d)
  {
  }

  lemma EntryFirst(es: seq<Entry>, names: seq<Text>, node: Node)
    requires names != [] && Find(es, names[0]) == Some(node)
    ensures EntriesTokens(CanonEntries(es, names))
            == [ENTRY, OPEN, NAME, Token(names[0]), NODE] + Tokens(Canon(node)) + [CLOSE]
               + EntriesTokens(CanonEntries(es, names[1..]))
  {
  }

  /** A well-named tree, listed in any order, is recovered from its archive in sorted form. */
  lemma SerializedDecodes(t: Node)
    requires WellNamed(t) && Fit(Tokens(Canon(t)))
    ensures Decode(Archive(Canon(t))) == Some(Canon(t))
  {
    CanonIsCanonical(t);
    DecodeArchive(Canon(t));
  }
}
