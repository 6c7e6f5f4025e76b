/** The Nix archive format. */
module Nar {
  // Serialisation (`serialize_to_nar` in nix/lib/build-binary-cache.py) and a reference decoder that
  // follows the "Nix Archive (NAR) format" section of the Protocols chapter of the Nix manual.

  import opened Results
  import opened Bytes
  import opened Listings

  datatype Node =
    | File(executable: bool, contents: seq<byte>)
    | Symlink(target: Text)
    | Directory(entries: seq<Entry>)

  datatype Entry = Entry(name: Text, node: Node)

  // ----- Strings -----

  function Ascii(s: string): Text {
    seq(|s|, i requires 0 <= i < |s| => s[i] as int)
  }

  /** Little-endian bytes of a number. */
  function Le(n: nat, k: nat): seq<byte>
    decreases k
  {
    if k == 0 then [] else [n % 256] + Le(n / 256, k - 1)
  }

  function FromLe(s: seq<byte>): int {
    if s == [] then 0 else s[0] + 256 * FromLe(s[1..])
  }

  function Pow256(k: nat): nat {
    if k == 0 then 1 else 256 * Pow256(k - 1)
  }

  function Zeros(n: nat): seq<byte> {
    seq(n, i => 0)
  }

  function Padding(len: nat): nat {
    (8 - len % 8) % 8
  }

  /** A NAR string: length in eight bytes, the bytes, zeros up to a multiple of eight. */
  function WriteStr(s: Text): seq<byte> {
    Le(|s|, 8) + s + Zeros(Padding(|s|))
  }

  /** One NAR string of an archive. */
  datatype Token = Token(text: Text)

  function Flatten(tokens: seq<Token>): seq<byte> {
    if tokens == [] then [] else WriteStr(tokens[0].text) + Flatten(tokens[1..])
  }

  lemma {:induction false} LeLength(n: nat, k: nat)
    ensures |Le(n, k)| == k
    decreases k
  {
    if k > 0 { LeLength(n / 256, k - 1); }
  }

  lemma {:induction false} FromLeInverse(n: nat, k: nat)
    requires n < Pow256(k)
    ensures FromLe(Le(n, k)) == n
    decreases k
  {
    if k > 0 {
      FromLeInverse(n / 256, k - 1);
      assert Le(n, k)[1..] == Le(n / 256, k - 1);
    }
  }

  lemma LowByte(b: int, rest: nat)
    requires 0 <= b < 256
    ensures (b + 256 * rest) % 256 == b && (b + 256 * rest) / 256 == rest
  {
  }

  lemma {:induction false} LeInverse(s: seq<byte>)
    requires IsBytes(s)
    ensures 0 <= FromLe(s) < Pow256(|s|) && Le(FromLe(s), |s|) == s
  {
    if s != [] {
      LeInverse(s[1..]);
      LowByte(s[0], FromLe(s[1..]));
      assert s == [s[0]] + s[1..];
    }
  }

  /** The least multiple of eight that is not below a number. */
  function RoundUp(n: nat): (r: nat)
    ensures r % 8 == 0 && n <= r < n + 8
  {
    (n + 7) / 8 * 8
  }

  /** Padding fills a string up to the next multiple of eight, and adds nothing to a full one. */
  lemma PaddingRounds(len: nat)
    ensures len + Padding(len) == RoundUp(len)
  {
  }

  /** A written string takes the least multiple of eight bytes that holds its length and its bytes. */
  lemma WriteStrLength(t: Text)
    ensures |WriteStr(t)| % 8 == 0 && 8 + |t| <= |WriteStr(t)| < 8 + |t| + 8
    ensures |WriteStr(t)| == 8 + RoundUp(|t|)
  {
    LeLength(|t|, 8);
    PaddingRounds(|t|);
  }

  lemma AlignedSum(a: nat, b: nat)
    requires a % 8 == 0 && b % 8 == 0
    ensures (a + b) % 8 == 0
  {
  }

  /** Every archive length is a multiple of eight. */
  lemma {:induction false} FlattenAligned(tokens: seq<Token>)
    ensures |Flatten(tokens)| % 8 == 0
  {
    if tokens != [] {
      FlattenAligned(tokens[1..]);
      WriteStrLength(tokens[0].text);
      AlignedSum(|WriteStr(tokens[0].text)|, |Flatten(tokens[1..])|);
    }
  }

  lemma Assoc(a: seq<byte>, b: seq<byte>, c: seq<byte>)
    ensures a + (b + c) == (a + b) + c
  {
  }

  lemma FlattenCons(t: Token, ts: seq<Token>)
    ensures Flatten([t] + ts) == WriteStr(t.text) + Flatten(ts)
  {
  }

  lemma {:induction false} FlattenJoin(a: seq<Token>, b: seq<Token>)
    ensures Flatten(a + b) == Flatten(a) + Flatten(b)
  {
    if a == [] {
      assert a + b == b;
      assert Flatten(a) + Flatten(b) == Flatten(b);
    } else {
      FlattenJoin(a[1..], b);
      ConsJoin(a, b);
      FlattenCons(a[0], a[1..] + b);
      FlattenCons(a[0], a[1..]);
      Assoc(WriteStr(a[0].text), Flatten(a[1..]), Flatten(b));
    }
  }

  // ----- Reading strings -----

  const LIMIT: nat := Pow256(8)

  /** Read one string and return what follows it; `None` when bytes are missing or padding is not zero. */
  function ReadStr(s: seq<byte>): (r: Option<(Text, seq<byte>)>)
    ensures r.Some? ==> |r.value.1| < |s|
  {
    if |s| < 8 then None
    else
      var len := FromLe(s[..8]);
      if len < 0 || 8 + RoundUp(len) > |s| then None
      else if exists i :: 8 + len <= i < 8 + RoundUp(len) && s[i] != 0 then None
      else Some((s[8..8 + len], s[8 + RoundUp(len)..]))
  }

  function Lex(s: seq<byte>): Option<seq<Token>>
    decreases |s|
  {
    if s == [] then Some([])
    else match ReadStr(s)
      case None => None
      case Some((text, rest)) =>
        match Lex(rest)
        case None => None
        case Some(tokens) => Some([Token(text)] + tokens)
  }

  predicate Fit(tokens: seq<Token>) {
    forall i :: 0 <= i < |tokens| ==> |tokens[i].text| < LIMIT
  }

  lemma Pieces(head: seq<byte>, body: seq<byte>, pad: seq<byte>, rest: seq<byte>, s: seq<byte>)
    requires s == head + body + pad + rest && |head| == 8
    ensures |s| == 8 + |body| + |pad| + |rest| && s[..8] == head && s[8..8 + |body|] == body
    ensures s[8 + |body|..8 + |body| + |pad|] == pad && s[8 + |body| + |pad|..] == rest
  {
  }

  lemma ReadWritten(t: Text, rest: seq<byte>)
    requires |t| < LIMIT
    ensures ReadStr(WriteStr(t) + rest) == Some((t, rest))
  {
    LeLength(|t|, 8);
    FromLeInverse(|t|, 8);
    PaddingRounds(|t|);
    Pieces(Le(|t|, 8), t, Zeros(Padding(|t|)), rest, WriteStr(t) + rest);
  }

  /** The bytes determine the strings. */
  lemma {:induction false} LexFlatten(tokens: seq<Token>)
    requires Fit(tokens)
    ensures Lex(Flatten(tokens)) == Some(tokens)
  {
    if tokens != [] {
      ReadWritten(tokens[0].text, Flatten(tokens[1..]));
      LeLength(|tokens[0].text|, 8);
      LexFlatten(tokens[1..]);
      ConsJoin(tokens, []);
    }
  }

  lemma Cut(s: seq<byte>, i: nat, j: nat)
    requires 8 <= i <= j <= |s|
    ensures s == s[..8] + s[8..i] + s[i..j] + s[j..]
  {
  }

  lemma ZeroSlice(s: seq<byte>, i: nat, j: nat)
    requires i <= j <= |s| && forall k :: i <= k < j ==> s[k] == 0
    ensures s[i..j] == Zeros(j - i)
  {
  }

  lemma WrittenRead(s: seq<byte>)
    requires IsBytes(s) && ReadStr(s).Some?
    ensures s == WriteStr(ReadStr(s).value.0) + ReadStr(s).value.1
    ensures |ReadStr(s).value.0| < LIMIT && IsBytes(ReadStr(s).value.1)
  {
    var head, len := s[..8], FromLe(s[..8]);
    LeInverse(head);
    PaddingRounds(len);
    Cut(s, 8 + len, 8 + RoundUp(len));
    ZeroSlice(s, 8 + len, 8 + RoundUp(len));
  }

  /** Only serialised strings are accepted. */
  lemma {:induction false} FlattenLex(s: seq<byte>)
    requires IsBytes(s) && Lex(s).Some?
    ensures Flatten(Lex(s).value) == s && Fit(Lex(s).value)
    decreases |s|
  {
    if s != [] {
      WrittenRead(s);
      var rest := ReadStr(s).value.1;
      FlattenLex(rest);
      assert Lex(s).value[1..] == Lex(rest).value;
    }
  }

  // ----- Trees as strings -----

  const OPEN := Token(Ascii("("))
  const CLOSE := Token(Ascii(")"))
  const TYPE := Token(Ascii("type"))
  const REGULAR := Token(Ascii("regular"))
  const EXECUTABLE := Token(Ascii("executable"))
  const CONTENTS := Token(Ascii("contents"))
  const SYMLINK := Token(Ascii("symlink"))
  const TARGET := Token(Ascii("target"))
  const DIRECTORY := Token(Ascii("directory"))
  const ENTRY := Token(Ascii("entry"))
  const NAME := Token(Ascii("name"))
  const NODE := Token(Ascii("node"))
  const MAGIC := Token(Ascii("nix-archive-1"))
  const EMPTY := Token([])

  lemma Keywords()
    ensures EXECUTABLE != CONTENTS && ENTRY != CLOSE
    ensures REGULAR != SYMLINK && REGULAR != DIRECTORY && SYMLINK != DIRECTORY
  {
    assert |EXECUTABLE.text| == 10 && |CONTENTS.text| == 8 && |ENTRY.text| == 5 && |CLOSE.text| == 1;
    assert |DIRECTORY.text| == 9 && |REGULAR.text| == 7 && |SYMLINK.text| == 7;
    assert REGULAR.text[0] == 'r' as int && SYMLINK.text[0] == 's' as int;
  }

  /** The strings of a node, its directory entries in the order given. */
  function Tokens(t: Node): seq<Token>
    decreases t, 1
  {
    match t
    case File(x, contents) =>
      [OPEN, TYPE, REGULAR] + (if x then [EXECUTABLE, EMPTY] else []) + [CONTENTS, Token(contents), CLOSE]
    case Symlink(target) => [OPEN, TYPE, SYMLINK, TARGET, Token(target), CLOSE]
    case Directory(entries) => [OPEN, TYPE, DIRECTORY] + EntriesTokens(entries) + [CLOSE]
  }

  function EntriesTokens(es: seq<Entry>): seq<Token>
    decreases es, 0
  {
    if es == [] then [] else EntryTokens(es[0]) + EntriesTokens(es[1..])
  }

  function EntryTokens(e: Entry): seq<Token>
    decreases e, 2
  {
    [ENTRY, OPEN, NAME, Token(e.name), NODE] + Tokens(e.node) + [CLOSE]
  }

  predicate GoodName(n: Text) {
    n != [] && n != Ascii(".") && n != Ascii("..") && forall i :: 0 <= i < |n| ==> n[i] != '/' as int && n[i] != 0
  }

  predicate Follows(prev: Option<Text>, n: Text) {
    prev.None? || Below(prev.value, n)
  }

  /** Directory entries have good names in strictly ascending order, at every level. */
  predicate Canonical(t: Node)
    decreases t, 1
  {
    t.Directory? ==> CanonicalEntries(t.entries, None)
  }

  predicate CanonicalEntries(es: seq<Entry>, prev: Option<Text>)
    decreases es, 0
  {
    es == [] ||
    (&& GoodName(es[0].name) && Follows(prev, es[0].name) && Canonical(es[0].node)
     && CanonicalEntries(es[1..], Some(es[0].name)))
  }

  // ----- Parsing -----

  function ParseNode(ts: seq<Token>): (r: Option<(Node, seq<Token>)>)
    ensures r.Some? ==> |r.value.1| < |ts|
    decreases |ts|, 1
  {
    if |ts| < 4 || ts[0] != OPEN || ts[1] != TYPE then None
    else if ts[2] == REGULAR then
      if ts[3] == EXECUTABLE then
        if |ts| < 8 || ts[4] != EMPTY || ts[5] != CONTENTS || ts[7] != CLOSE then None
        else Some((File(true, ts[6].text), ts[8..]))
      else if |ts| < 6 || ts[3] != CONTENTS || ts[5] != CLOSE then None
      else Some((File(false, ts[4].text), ts[6..]))
    else if ts[2] == SYMLINK then
      if |ts| < 6 || ts[3] != TARGET || ts[5] != CLOSE then None
      else Some((Symlink(ts[4].text), ts[6..]))
    else if ts[2] == DIRECTORY then
      match ParseEntries(ts[3..], None)
      case None => None
      case Some((es, rest)) => Some((Directory(es), rest))
    else None
  }

  /** Entries up to and including the closing parenthesis. */
  function ParseEntries(ts: seq<Token>, prev: Option<Text>): (r: Option<(seq<Entry>, seq<Token>)>)
    ensures r.Some? ==> |r.value.1| < |ts|
    decreases |ts|, 0
  {
    if ts == [] then None
    else if ts[0] == CLOSE then Some(([], ts[1..]))
    else if |ts| < 6 || ts[0] != ENTRY || ts[1] != OPEN || ts[2] != NAME || ts[4] != NODE then None
    else if !GoodName(ts[3].text) || !Follows(prev, ts[3].text) then None
    else match ParseNode(ts[5..])
      case None => None
      case Some((node, after)) =>
        if after == [] || after[0] != CLOSE then None
        else match ParseEntries(after[1..], Some(ts[3].text))
          case None => None
          case Some((es, rest)) => Some(([Entry(ts[3].text, node)] + es, rest))
  }

  // ----- Unique decodability -----

  lemma {:induction false} ParseTokens(t: Node, rest: seq<Token>)
    requires Canonical(t)
    ensures ParseNode(Tokens(t) + rest) == Some((t, rest))
    decreases t, 1
  {
    Keywords();
    var ts := Tokens(t) + rest;
    match t
    case File(x, contents) =>
      assert ts[if x then 8 else 6..] == rest;
    case Symlink(target) =>
      assert ts[6..] == rest;
    case Directory(es) =>
      assert ts[3..] == EntriesTokens(es) + ([CLOSE] + rest);
      ParseEntriesTokens(es, None, rest);
      EntriesNonempty(es, rest);
  }

  lemma EntriesNonempty(es: seq<Entry>, rest: seq<Token>)
    ensures |EntriesTokens(es) + ([CLOSE] + rest)| >= 1
  {
  }

  lemma {:induction false} ParseEntriesTokens(es: seq<Entry>, prev: Option<Text>, rest: seq<Token>)
    requires CanonicalEntries(es, prev)
    ensures ParseEntries(EntriesTokens(es) + ([CLOSE] + rest), prev) == Some((es, rest))
    decreases es, 0
  {
    Keywords();
    var ts := EntriesTokens(es) + ([CLOSE] + rest);
    if es == [] {
      assert ts == [CLOSE] + rest && ts[1..] == rest;
    } else {
      var e := es[0];
      var after := EntriesTokens(es[1..]) + ([CLOSE] + rest);
      EntryLayout(e, EntriesTokens(es[1..]), [CLOSE] + rest, ts);
      ParseTokens(e.node, [CLOSE] + after);
      ParseEntriesTokens(es[1..], Some(e.name), rest);
      assert ([CLOSE] + after)[1..] == after;
      assert es == [e] + es[1..] && e == Entry(e.name, e.node);
    }
  }

  lemma EntryLayout(e: Entry, more: seq<Token>, rest: seq<Token>, ts: seq<Token>)
    requires ts == EntryTokens(e) + more + rest
    ensures |ts| >= 6 && ts[0] == ENTRY && ts[1] == OPEN && ts[2] == NAME && ts[3] == Token(e.name) && ts[4] == NODE
    ensures ts[5..] == Tokens(e.node) + ([CLOSE] + (more + rest))
  {
  }

  lemma Prefix6<T>(ts: seq<T>)
    requires |ts| >= 6
    ensures ts == [ts[0], ts[1], ts[2], ts[3], ts[4], ts[5]] + ts[6..]
  {
  }

  lemma Prefix8<T>(ts: seq<T>)
    requires |ts| >= 8
    ensures ts == [ts[0], ts[1], ts[2]] + [ts[3], ts[4]] + [ts[5], ts[6], ts[7]] + ts[8..]
  {
  }

  lemma ParsedLeaf(ts: seq<Token>)
    requires ParseNode(ts).Some? && !ParseNode(ts).value.0.Directory?
    ensures var (t, rest) := ParseNode(ts).value; ts == Tokens(t) + rest
  {
    Keywords();
    var (t, rest) := ParseNode(ts).value;
    if t.File? && t.executable {
      Prefix8(ts);
    } else {
      Prefix6(ts);
      assert t.File? ==> Tokens(t) == [OPEN, TYPE, REGULAR, CONTENTS, Token(t.contents), CLOSE];
    }
  }

  lemma DirectoryJoin(entries: seq<Token>, rest: seq<Token>)
    ensures [OPEN, TYPE, DIRECTORY] + entries + [CLOSE] + rest == [OPEN, TYPE, DIRECTORY] + (entries + ([CLOSE] + rest))
  {
  }

  /** Only the strings of canonical trees are accepted. */
  lemma {:induction false} ParsedTokens(ts: seq<Token>)
    requires ParseNode(ts).Some?
    ensures var (t, rest) := ParseNode(ts).value; Canonical(t) && ts == Tokens(t) + rest
    decreases |ts|, 1
  {
    var (t, rest) := ParseNode(ts).value;
    if t.Directory? {
      Keywords();
      ParsedEntries(ts[3..], None);
      assert ts == [OPEN, TYPE, DIRECTORY] + ts[3..];
      DirectoryJoin(EntriesTokens(t.entries), rest);
    } else {
      ParsedLeaf(ts);
    }
  }

  lemma {:induction false} ParsedEntries(ts: seq<Token>, prev: Option<Text>)
    requires ParseEntries(ts, prev).Some?
    ensures var (es, rest) := ParseEntries(ts, prev).value;
            CanonicalEntries(es, prev) && ts == EntriesTokens(es) + ([CLOSE] + rest)
    decreases |ts|, 0
  {
    var (es, rest) := ParseEntries(ts, prev).value;
    if ts[0] == CLOSE {
      assert ts == [CLOSE] + ts[1..];
      assert EntriesTokens(es) + ([CLOSE] + rest) == [CLOSE] + rest;
    } else {
      var (node, after) := ParseNode(ts[5..]).value;
      ParsedTokens(ts[5..]);
      ParsedEntries(after[1..], Some(ts[3].text));
      var more := ParseEntries(after[1..], Some(ts[3].text)).value.0;
      assert es[0] == Entry(ts[3].text, node) && es[1..] == more;
      EntryFrame(ts, after);
      EntryJoin(es[0], EntriesTokens(more), [CLOSE] + rest, after, ts);
    }
  }

  lemma EntryFrame(ts: seq<Token>, after: seq<Token>)
    requires |ts| >= 6 && ts[0] == ENTRY && ts[1] == OPEN && ts[2] == NAME && ts[4] == NODE
    requires after != [] && after[0] == CLOSE
    ensures ts == [ENTRY, OPEN, NAME, Token(ts[3].text), NODE] + ts[5..] && after == [CLOSE] + after[1..]
  {
  }

  lemma EntryJoin(e: Entry, more: seq<Token>, rest: seq<Token>, after: seq<Token>, ts: seq<Token>)
    requires ts == [ENTRY, OPEN, NAME, Token(e.name), NODE] + (Tokens(e.node) + after)
    requires after == [CLOSE] + (more + rest)
    ensures ts == EntryTokens(e) + more + rest
  {
  }

  // ----- Archives -----

  function Archive(t: Node): seq<byte> {
    Flatten([MAGIC] + Tokens(t))
  }

  function Decode(s: seq<byte>): Option<Node> {
    match Lex(s)
    case None => None
    case Some(ts) =>
      if ts == [] || ts[0] != MAGIC then None
      else match ParseNode(ts[1..])
        case None => None
        case Some((t, rest)) => if rest == [] then Some(t) else None
  }

  /** Decoding recovers every tree. */
  lemma DecodeArchive(t: Node)
    requires Canonical(t) && Fit(Tokens(t))
    ensures Decode(Archive(t)) == Some(t)
  {
    var ts := [MAGIC] + Tokens(t);
    assert |MAGIC.text| == 13;
    LimitIsLarge();
    LexFlatten(ts);
    ParseTokens(t, []);
    assert ts[1..] == Tokens(t) + [];
  }

  lemma LimitIsLarge()
    ensures LIMIT > 100
  {
  }

  /** Only archives are accepted: decoding and serialising are inverse to each other. */
  lemma ArchiveDecode(s: seq<byte>)
    requires IsBytes(s) && Decode(s).Some?
    ensures Canonical(Decode(s).value) && Archive(Decode(s).value) == s
  {
    FlattenLex(s);
    var ts := Lex(s).value;
    ParsedTokens(ts[1..]);
    var t := Decode(s).value;
    assert ts[1..] == Tokens(t) + [] == Tokens(t);
    assert ts == [ts[0]] + ts[1..];
  }

  /** Different trees have different archives, and archive lengths are multiples of eight. */
  lemma ArchiveInjective(a: Node, b: Node)
    requires Canonical(a) && Canonical(b) && Fit(Tokens(a)) && Fit(Tokens(b))
    ensures Archive(a) == Archive(b) <==> a == b
    ensures |Archive(a)| % 8 == 0
  {
    DecodeArchive(a);
    DecodeArchive(b);
    FlattenAligned([MAGIC] + Tokens(a));
  }

  // ----- One archive, spelled out -----

  /** A string as it stands in an archive: its length below 256, its characters and its padding. */
  datatype Piece = Piece(length: nat, text: string, zeros: nat)

  function Spelled(pieces: seq<Piece>): seq<byte> {
    if pieces == [] then []
    else
      var p := pieces[0];
      [p.length, 0, 0, 0, 0, 0, 0, 0] + Ascii(p.text) + Zeros(p.zeros) + Spelled(pieces[1..])
  }

  lemma {:induction false} ZeroLe(k: nat)
    ensures Le(0, k) == Zeros(k)
    decreases k
  {
    if k > 0 { ZeroLe(k - 1); }
  }

  lemma ShortLe(n: nat)
    requires n < 256
    ensures Le(n, 8) == [n, 0, 0, 0, 0, 0, 0, 0]
  {
    ZeroLe(7);
    assert n % 256 == n && n / 256 == 0;
    assert Le(n, 8) == [n] + Zeros(7);
  }

  predicate SpellsOne(t: Token, p: Piece) {
    t.text == Ascii(p.text) && p.length == |p.text| < 256 && p.zeros < 8 && (p.length + p.zeros) % 8 == 0
  }

  lemma ShortStr(t: Token, p: Piece)
    requires SpellsOne(t, p)
    ensures WriteStr(t.text) == [p.length, 0, 0, 0, 0, 0, 0, 0] + Ascii(p.text) + Zeros(p.zeros)
  {
    ShortLe(p.length);
    assert Padding(p.length) == p.zeros;
  }

  predicate Spells(tokens: seq<Token>, pieces: seq<Piece>) {
    |tokens| == |pieces| && forall i :: 0 <= i < |pieces| ==> SpellsOne(tokens[i], pieces[i])
  }

  lemma {:induction false} FlattenSpelled(tokens: seq<Token>, pieces: seq<Piece>)
    requires Spells(tokens, pieces)
    ensures Flatten(tokens) == Spelled(pieces)
  {
    if tokens != [] {
      ShortStr(tokens[0], pieces[0]);
      FlattenSpelled(tokens[1..], pieces[1..]);
    }
  }

  /** The archive of an executable file that contains "hi". */
  lemma FileArchive()
    ensures Archive(File(true, Ascii("hi")))
         == Spelled([Piece(13, "nix-archive-1", 3), Piece(1, "(", 7), Piece(4, "type", 4), Piece(7, "regular", 1),
                     Piece(10, "executable", 6), Piece(0, "", 0), Piece(8, "contents", 0), Piece(2, "hi", 6),
                     Piece(1, ")", 7)])
  {
    assert Ascii("") == [];
    FlattenSpelled([MAGIC] + Tokens(File(true, Ascii("hi"))),
                   [Piece(13, "nix-archive-1", 3), Piece(1, "(", 7), Piece(4, "type", 4), Piece(7, "regular", 1),
                    Piece(10, "executable", 6), Piece(0, "", 0), Piece(8, "contents", 0), Piece(2, "hi", 6),
                    Piece(1, ")", 7)]);
  }

  /** What precedes the only entry `a` of a directory. */
  const ENTRY_HEAD: seq<Piece> := [
    Piece(13, "nix-archive-1", 3), Piece(1, "(", 7), Piece(4, "type", 4), Piece(9, "directory", 7),
    Piece(5, "entry", 3), Piece(1, "(", 7), Piece(4, "name", 4), Piece(1, "a", 7), Piece(4, "node", 4)
  ]

  /** A link to `b`. */
  const LINK_NODE: seq<Piece> := [
    Piece(1, "(", 7), Piece(4, "type", 4), Piece(7, "symlink", 1), Piece(6, "target", 2), Piece(1, "b", 7),
    Piece(1, ")", 7)
  ]

  lemma EntryHead()
    ensures Flatten([MAGIC, OPEN, TYPE, DIRECTORY, ENTRY, OPEN, NAME, Token(Ascii("a")), NODE]) == Spelled(ENTRY_HEAD)
  {
    FlattenSpelled([MAGIC, OPEN, TYPE, DIRECTORY, ENTRY, OPEN, NAME, Token(Ascii("a")), NODE], ENTRY_HEAD);
  }

  lemma LinkNode()
    ensures Flatten(Tokens(Symlink(Ascii("b")))) == Spelled(LINK_NODE)
  {
    FlattenSpelled(Tokens(Symlink(Ascii("b"))), LINK_NODE);
  }

  /** The archive of a directory with one entry. */
  lemma OneEntry(n: Text, t: Node)
    ensures Archive(Directory([Entry(n, t)]))
         == Flatten([MAGIC, OPEN, TYPE, DIRECTORY, ENTRY, OPEN, NAME, Token(n), NODE]) + Flatten(Tokens(t))
            + Flatten([CLOSE, CLOSE])
  {
    var head := [MAGIC, OPEN, TYPE, DIRECTORY, ENTRY, OPEN, NAME, Token(n), NODE];
    var e := Entry(n, t);
    OneEntryTokens(e);
    FlattenJoin(head + Tokens(t), [CLOSE, CLOSE]);
    FlattenJoin(head, Tokens(t));
  }

  lemma OneEntryTokens(e: Entry)
    ensures [MAGIC] + Tokens(Directory([e]))
         == [MAGIC, OPEN, TYPE, DIRECTORY, ENTRY, OPEN, NAME, Token(e.name), NODE] + Tokens(e.node) + [CLOSE, CLOSE]
  {
    assert EntriesTokens([e]) == EntryTokens(e) + [] == EntryTokens(e);
    assert Tokens(Directory([e])) == [OPEN, TYPE, DIRECTORY] + EntryTokens(e) + [CLOSE];
  }
}
