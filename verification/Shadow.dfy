/** The shadow file: one `name:field` line an account. */
module Shadow {
  import opened Bytes
  import opened Kdf

  const NEWLINE: byte := 10
  const COLON: byte := 58
  /** Size of the buffers a shadow file is read into and rebuilt in. */
  const FILE_MAX: nat := 4096
  const ENTRY_MAX: nat := 128

  // ---- lines ----

  /** The lines of a file; the last one may lack its newline. */
  function Lines(data: seq<byte>): (ls: seq<seq<byte>>)
    decreases |data|
  {
    if data == [] then []
    else
      var n := Index(data, NEWLINE);
      [data[..n]] + if n < |data| then Lines(data[n + 1..]) else []
  }

  function Join(ls: seq<seq<byte>>): (data: seq<byte>) {
    if ls == [] then [] else ls[0] + [NEWLINE] + Join(ls[1..])
  }

  ghost predicate OneLine(l: seq<byte>) {
    forall i :: 0 <= i < |l| ==> l[i] != NEWLINE
  }

  ghost predicate AllOneLine(ls: seq<seq<byte>>) {
    forall i :: 0 <= i < |ls| ==> OneLine(ls[i])
  }

  lemma {:induction false} LinesAreLines(data: seq<byte>)
    ensures AllOneLine(Lines(data))
    decreases |data|
  {
    hide Index;
    if data != [] {
      var n := Index(data, NEWLINE);
      assert OneLine(data[..n]);
      if n < |data| {
        LinesAreLines(data[n + 1..]);
      }
    }
  }

  lemma IndexAfter(l: seq<byte>, rest: seq<byte>, c: byte)
    requires forall i :: 0 <= i < |l| ==> l[i] != c
    ensures Index(l + [c] + rest, c) == |l|
  {
    hide Index;
    var s := l + [c] + rest;
    assert s[|l|] == c;
    assert Index(s, c) <= |l|;
    assert forall i :: 0 <= i < |l| ==> s[i] == l[i];
  }

  /** Splitting undoes joining. */
  lemma {:induction false} LinesOfJoin(ls: seq<seq<byte>>)
    requires AllOneLine(ls)
    ensures Lines(Join(ls)) == ls
    decreases |ls|
  {
    hide Index;
    if ls != [] {
      var data := Join(ls);
      IndexAfter(ls[0], Join(ls[1..]), NEWLINE);
      LinesOfJoin(ls[1..]);
      assert data[..|ls[0]|] == ls[0];
      assert data[|ls[0]| + 1..] == Join(ls[1..]);
    }
  }

  // ---- entries ----

  /** The account a line belongs to; lines without a colon belong to none. */
  function NameOf(l: seq<byte>): (n: Option<seq<byte>>) {
    var c := Index(l, COLON);
    if c == |l| then None else Some(l[..c])
  }

  function EntryOf(l: seq<byte>): (e: seq<byte>)
    requires NameOf(l).Some?
  {
    l[Index(l, COLON) + 1..]
  }

  /** The first line of the account. */
  function FindEntry(ls: seq<seq<byte>>, user: seq<byte>): (e: Option<seq<byte>>) {
    if ls == [] then None
    else if NameOf(ls[0]) == Some(user) then Some(EntryOf(ls[0]))
    else FindEntry(ls[1..], user)
  }

  function Lookup(data: seq<byte>, user: seq<byte>): (e: Option<seq<byte>>) {
    FindEntry(Lines(data), user)
  }

  /** What verification sees of an entry: 127 bytes at most, up to the first zero byte. */
  function Stored(entry: seq<byte>): (s: seq<byte>) {
    var cut := entry[..Min(|entry|, ENTRY_MAX - 1)];
    cut[..Index(cut, 0)]
  }

  datatype Outcome = Accepted | AcceptedLegacy | Rejected

  function Verify(data: seq<byte>, user: seq<byte>, password: seq<byte>): (o: Outcome) {
    match Lookup(data, user)
    case None => Rejected
    case Some(entry) =>
      match ParseField(Stored(entry))
      case None => Rejected
      case Some(f) =>
        match Classify(password, f)
        case Iterated => Accepted
        case Legacy => AcceptedLegacy
        case Unknown => Rejected
  }

  // ---- rewriting ----

  /** A password change; the source draws a fresh salt for every line it formats. */
  datatype Request = Request(user: seq<byte>, password: seq<byte>, salts: nat -> Salt)

  /** The line for an account, built in a 128-byte buffer: a field that does not fit is left out. */
  function FormatEntry(user: seq<byte>, password: seq<byte>, salt: Salt): (l: seq<byte>)
    ensures |l| <= ENTRY_MAX
  {
    if |user| >= ENTRY_MAX then user[..ENTRY_MAX]
    else if |user| + 1 + FIELD_LEN > ENTRY_MAX then user + [COLON]
    else user + [COLON] + FormatField(Field(salt, HashPassword(password, salt)))
  }

  /** The line formatted with the `k`-th salt. */
  function Line(q: Request, k: nat): (l: seq<byte>) {
    FormatEntry(q.user, q.password, q.salts(k))
  }

  function Replaced(ls: seq<seq<byte>>, q: Request, k: nat): (r: seq<seq<byte>>)
    ensures |r| == |ls|
    decreases |ls|
  {
    if ls == [] then []
    else if NameOf(ls[0]) == Some(q.user) then [Line(q, k)] + Replaced(ls[1..], q, k + 1)
    else [ls[0]] + Replaced(ls[1..], q, k)
  }

  /** How many lines the account has. */
  function Matches(ls: seq<seq<byte>>, user: seq<byte>): (n: nat) {
    if ls == [] then 0 else (if NameOf(ls[0]) == Some(user) then 1 else 0) + Matches(ls[1..], user)
  }

  function UpdatedLines(ls: seq<seq<byte>>, q: Request): (r: seq<seq<byte>>) {
    Replaced(ls, q, 0) + if Matches(ls, q.user) > 0 then [] else [Line(q, 0)]
  }

  /** The output buffer holds 4096 bytes. */
  function Cap(data: seq<byte>): (r: seq<byte>) {
    data[..Min(|data|, FILE_MAX)]
  }

  /** The rewritten file before it is cut to its buffer. */
  function Whole(data: seq<byte>, q: Request): (r: seq<byte>) {
    Join(UpdatedLines(Lines(data), q))
  }

  function Update(data: seq<byte>, q: Request): (r: seq<byte>) {
    Cap(Whole(data, q))
  }

  function Kept(ls: seq<seq<byte>>, user: seq<byte>): (r: seq<seq<byte>>) {
    if ls == [] then []
    else (if NameOf(ls[0]).Some? && NameOf(ls[0]) != Some(user) then [ls[0]] else []) + Kept(ls[1..], user)
  }

  function Delete(data: seq<byte>, user: seq<byte>): (r: seq<byte>) {
    Cap(Join(Kept(Lines(data), user)))
  }

  // ---- joining ----

  ghost predicate Ended(data: seq<byte>) {
    data == [] || data[|data| - 1] == NEWLINE
  }

  lemma JoinFirst(data: seq<byte>, n: nat, rest: seq<byte>, joined: seq<byte>)
    requires n < |data| && data[n] == NEWLINE && rest == data[n + 1..]
    requires joined == if Ended(rest) then rest else rest + [NEWLINE]
    ensures data[..n] + [NEWLINE] + joined == if Ended(data) then data else data + [NEWLINE]
  {
    assert data == data[..n] + [NEWLINE] + rest;
    if rest != [] {
      assert data[|data| - 1] == rest[|rest| - 1];
    }
    if !Ended(rest) {
      Assoc(data[..n] + [NEWLINE], rest, [NEWLINE]);
    }
  }

  lemma JoinOne(l: seq<byte>)
    ensures Join([l]) == l + [NEWLINE]
  {
    assert [l][1..] == [];
    assert l + [NEWLINE] + [] == l + [NEWLINE];
  }

  /** Joining the lines gives the file back, with its last newline if it was missing. */
  lemma {:induction false} JoinOfLines(data: seq<byte>)
    ensures Join(Lines(data)) == if Ended(data) then data else data + [NEWLINE]
    decreases |data|
  {
    hide Index, Join, Ended;
    if data == [] {
      JoinNothing();
    } else {
      var n := Index(data, NEWLINE);
      LastLine(data, n);
      if n < |data| {
        var rest := data[n + 1..];
        JoinOfLines(rest);
        JoinCons(data[..n], Lines(rest));
        JoinFirst(data, n, rest, Join(Lines(rest)));
      } else {
        JoinOne(data);
      }
    }
  }

  lemma JoinNothing()
    ensures Join([]) == [] && Ended([])
  {
  }

  lemma JoinCons(l: seq<byte>, ls: seq<seq<byte>>)
    ensures Join([l] + ls) == l + [NEWLINE] + Join(ls)
  {
    assert ([l] + ls)[1..] == ls;
  }

  lemma LastLine(data: seq<byte>, n: nat)
    requires data != [] && n == Index(data, NEWLINE)
    ensures n == |data| ==> Lines(data) == [data] && !Ended(data)
    ensures n < |data| ==> Lines(data) == [data[..n]] + Lines(data[n + 1..])
  {
    hide Index;
    if n == |data| {
      assert data[..n] == data;
    }
  }

  lemma {:induction false} JoinEnded(ls: seq<seq<byte>>)
    ensures Ended(Join(ls))
    decreases |ls|
  {
    if ls != [] {
      JoinEnded(ls[1..]);
      var data, rest := Join(ls), Join(ls[1..]);
      if rest != [] {
        assert data[|data| - 1] == rest[|rest| - 1];
      }
    }
  }

  /** Text after whole lines splits on its own. */
  lemma {:induction false} LinesAppend(ls: seq<seq<byte>>, t: seq<byte>)
    requires AllOneLine(ls)
    ensures Lines(Join(ls) + t) == ls + Lines(t)
    decreases |ls|
  {
    hide Lines, Join;
    if ls == [] {
      JoinNothing();
      assert Join(ls) + t == t;
    } else {
      var l, rest := ls[0], ls[1..];
      assert ls == [l] + rest;
      LinesAppend(rest, t);
      JoinCons(l, rest);
      FrontLine(l, Join(rest) + t);
      Assoc(l + [NEWLINE], Join(rest), t);
      Assoc([l], rest, Lines(t));
    }
  }

  lemma FrontLine(l: seq<byte>, rest: seq<byte>)
    requires OneLine(l)
    ensures Lines(l + [NEWLINE] + rest) == [l] + Lines(rest)
  {
    hide Index;
    var data := l + [NEWLINE] + rest;
    IndexAfter(l, rest, NEWLINE);
    assert data[..|l|] == l && data[|l| + 1..] == rest;
  }

  lemma OnlyLine(l: seq<byte>)
    requires OneLine(l)
    ensures Lines(l) == if l == [] then [] else [l]
  {
    hide Index;
    if l != [] {
      IndexUnique(l, NEWLINE, |l|);
      assert l[..|l|] == l;
    }
  }

  lemma IndexUnique(s: seq<byte>, c: byte, i: nat)
    requires i <= |s| && (forall k :: 0 <= k < i ==> s[k] != c) && (i < |s| ==> s[i] == c)
    ensures Index(s, c) == i
  {
    hide Index;
    assert !(Index(s, c) < i) && !(i < Index(s, c));
  }

  // ---- looking up in a cut file ----

  /** Where the account's first line starts, or would be appended. */
  function Position(ls: seq<seq<byte>>, user: seq<byte>): (n: nat) {
    if ls == [] || NameOf(ls[0]) == Some(user) then 0 else |ls[0]| + 1 + Position(ls[1..], user)
  }

  /** What is left of an entry in the first `k` bytes of a file: none of it, or its front part. */
  function CutEntry(ls: seq<seq<byte>>, user: seq<byte>, k: nat): (e: Option<seq<byte>>) {
    var whole, start := FindEntry(ls, user), Position(ls, user) + |user| + 1;
    if whole == None || start > k then None else Some(whole.value[..Min(|whole.value|, k - start)])
  }

  lemma CutLine(l: seq<byte>, k: nat)
    requires k <= |l|
    ensures NameOf(l[..k]) == if NameOf(l).Some? && |NameOf(l).value| < k then NameOf(l) else None
    ensures NameOf(l).Some? && |NameOf(l).value| < k ==>
              EntryOf(l[..k]) == EntryOf(l)[..k - |NameOf(l).value| - 1]
  {
    hide Index;
    var c := Index(l, COLON);
    if c < k {
      IndexUnique(l[..k], COLON, c);
      assert l[..k][..c] == l[..c];
      assert l[..k][c + 1..] == l[c + 1..][..k - c - 1];
    } else {
      IndexUnique(l[..k], COLON, k);
    }
  }

  lemma NameLength(l: seq<byte>)
    requires NameOf(l).Some?
    ensures |NameOf(l).value| + 1 + |EntryOf(l)| == |l|
  {
    hide Index;
  }

  lemma CutInFirst(ls: seq<seq<byte>>, user: seq<byte>, k: nat)
    requires ls != [] && OneLine(ls[0]) && k <= |ls[0]|
    ensures FindEntry(Lines(ls[0][..k]), user) == CutEntry(ls, user, k)
  {
    hide Index, NameOf, EntryOf, Lines;
    var l := ls[0];
    OnlyLine(l[..k]);
    CutLine(l, k);
    assert FindEntry([], user) == None;
    if k > 0 {
      assert [l[..k]][1..] == [];
    }
    if NameOf(l) == Some(user) {
      NameLength(l);
    }
  }

  /** Looking an account up in a file cut at `k` finds what the cut left of its first entry. */
  lemma {:induction false} FindCut(ls: seq<seq<byte>>, user: seq<byte>, k: nat)
    requires AllOneLine(ls) && k <= |Join(ls)|
    ensures FindEntry(Lines(Join(ls)[..k]), user) == CutEntry(ls, user, k)
    decreases |ls|
  {
    hide Index, NameOf, EntryOf, Lines, CutEntry;
    if ls == [] {
      CutNothing(user);
    } else {
      var l, rest := ls[0], ls[1..];
      var data := Join(ls);
      if k <= |l| {
        assert data[..k] == l[..k];
        CutInFirst(ls, user, k);
      } else {
        var j := k - |l| - 1;
        FindCut(rest, user, j);
        assert data[..k] == l + [NEWLINE] + Join(rest)[..j];
        FrontLine(l, Join(rest)[..j]);
        CutPast(ls, user, k);
        assert ([l] + Lines(Join(rest)[..j]))[1..] == Lines(Join(rest)[..j]);
      }
    }
  }

  lemma CutNothing(user: seq<byte>)
    ensures FindEntry(Lines(Join([])[..0]), user) == CutEntry([], user, 0)
  {
  }

  lemma CutPast(ls: seq<seq<byte>>, user: seq<byte>, k: nat)
    requires ls != [] && k > |ls[0]|
    ensures CutEntry(ls, user, k) ==
            if NameOf(ls[0]) == Some(user) then Some(EntryOf(ls[0]))
            else CutEntry(ls[1..], user, k - |ls[0]| - 1)
  {
    hide Index, NameOf, EntryOf;
    if NameOf(ls[0]) == Some(user) {
      NameLength(ls[0]);
      var e := EntryOf(ls[0]);
      assert e[..|e|] == e;
    }
  }

  lemma {:induction false} EntryInside(ls: seq<seq<byte>>, user: seq<byte>)
    requires FindEntry(ls, user).Some?
    ensures Position(ls, user) + |user| + 1 + |FindEntry(ls, user).value| <= |Join(ls)|
    decreases |ls|
  {
    hide Index, NameOf, EntryOf;
    if NameOf(ls[0]) == Some(user) {
      NameLength(ls[0]);
    } else {
      EntryInside(ls[1..], user);
    }
  }

  /** What any account's lookup gives after an update, in terms of the file before the cut. */
  lemma {:induction false} LookupAfter(data: seq<byte>, q: Request, who: seq<byte>)
    ensures Lookup(Update(data, q), who) == CutEntry(Lines(Whole(data, q)), who, FILE_MAX)
  {
    hide Index, NameOf, EntryOf, Lines, Join, UpdatedLines, CutEntry;
    var t := Whole(data, q);
    var ls, k := Lines(t), Min(|t|, FILE_MAX);
    LinesAreLines(t);
    JoinOfLines(t);
    JoinEnded(UpdatedLines(Lines(data), q));
    FindCut(ls, who, k);
    CutBeyond(ls, who, k);
  }

  lemma CutBeyond(ls: seq<seq<byte>>, user: seq<byte>, k: nat)
    requires k == Min(|Join(ls)|, FILE_MAX)
    ensures CutEntry(ls, user, k) == CutEntry(ls, user, FILE_MAX)
  {
    hide NameOf, EntryOf, Join, FindEntry, Position;
    if FindEntry(ls, user).Some? {
      EntryInside(ls, user);
    }
  }

  // ---- update then verify ----

  /** A name a shadow line can carry. */
  ghost predicate PlainName(user: seq<byte>) {
    forall i :: 0 <= i < |user| ==> user[i] != COLON && user[i] != NEWLINE
  }

  lemma NameOfEntry(user: seq<byte>, rest: seq<byte>)
    requires forall i :: 0 <= i < |user| ==> user[i] != COLON
    ensures NameOf(user + [COLON] + rest) == Some(user) && EntryOf(user + [COLON] + rest) == rest
  {
    hide Index;
    var l := user + [COLON] + rest;
    IndexAfter(user, rest, COLON);
    assert l[..|user|] == user && l[|user| + 1..] == rest;
  }

  /** The name part of a line never holds a colon. */
  lemma NameHasNoColon(l: seq<byte>, k: nat)
    requires NameOf(l).Some? && k < |NameOf(l).value|
    ensures k < |l| && NameOf(l).value[k] != COLON && NameOf(l).value[k] == l[k]
  {
    hide Index;
  }

  /** A name that no line can spell is in no file. */
  lemma {:induction false} NeverFound(ls: seq<seq<byte>>, user: seq<byte>)
    requires AllOneLine(ls) && !PlainName(user)
    ensures FindEntry(ls, user) == None && Matches(ls, user) == 0
    decreases |ls|
  {
    hide NameOf, EntryOf;
    if ls != [] {
      NeverFound(ls[1..], user);
      if NameOf(ls[0]) == Some(user) {
        var k :| 0 <= k < |user| && (user[k] == COLON || user[k] == NEWLINE);
        NameHasNoColon(ls[0], k);
      }
    }
  }

  /** The longest name that leaves room for the field. */
  const NAME_MAX: nat := 43

  lemma EntryOneLine(user: seq<byte>, password: seq<byte>, salt: Salt)
    requires PlainName(user)
    ensures OneLine(FormatEntry(user, password, salt))
  {
    hide HashPassword, Hex;
    if |user| + 1 + FIELD_LEN <= ENTRY_MAX {
      FieldHasNoNewline(Field(salt, HashPassword(password, salt)));
    }
  }

  lemma FieldHasNoNewline(f: Field)
    requires |f.salt| == SALT_LEN && |f.hash| == 32
    ensures OneLine(FormatField(f))
  {
    hide Hex;
  }

  /** A plain name's line: its account and what it stores. */
  lemma EntryShape(user: seq<byte>, password: seq<byte>, salt: Salt)
    requires PlainName(user)
    ensures var l := FormatEntry(user, password, salt);
            && (|user| >= ENTRY_MAX ==> NameOf(l) == None)
            && (|user| < ENTRY_MAX ==> NameOf(l) == Some(user))
            && (NAME_MAX < |user| < ENTRY_MAX ==> EntryOf(l) == [])
            && (|user| <= NAME_MAX ==> EntryOf(l) == FormatField(Field(salt, HashPassword(password, salt))))
  {
    hide HashPassword, FormatField, NameOf, EntryOf;
    if |user| >= ENTRY_MAX {
      NoColon(user[..ENTRY_MAX]);
    } else if |user| > NAME_MAX {
      NameOfEntry(user, []);
      assert user + [COLON] + [] == user + [COLON];
    } else {
      NameOfEntry(user, FormatField(Field(salt, HashPassword(password, salt))));
    }
  }

  lemma NoColon(l: seq<byte>)
    requires forall i :: 0 <= i < |l| ==> l[i] != COLON
    ensures NameOf(l) == None
  {
  }

  lemma StoredField(f: Field)
    requires |f.salt| == SALT_LEN && |f.hash| == 32
    ensures ParseField(Stored(FormatField(f))) == Some(f)
  {
    hide Index, ParseField, FormatField;
    FieldRoundTrip(f);
    var d := FormatField(f);
    assert d[..Min(|d|, ENTRY_MAX - 1)] == d;
    assert Index(d, 0) == |d|;
    assert d[..|d|] == d;
  }

  /** An entry that has lost a byte of its field is locked. */
  lemma StoredShort(e: seq<byte>)
    requires |e| < FIELD_LEN
    ensures ParseField(Stored(e)) == None
  {
    hide Index;
  }

  lemma {:induction false} ReplacedOneLine(ls: seq<seq<byte>>, q: Request, k: nat)
    requires AllOneLine(ls) && forall i: nat :: OneLine(Line(q, i))
    ensures AllOneLine(Replaced(ls, q, k))
    decreases |ls|
  {
    hide NameOf, OneLine, Line;
    if ls != [] {
      ReplacedOneLine(ls[1..], q, if NameOf(ls[0]) == Some(q.user) then k + 1 else k);
    }
  }

  /** With a plain name the rewritten file is made of exactly the rewritten lines. */
  lemma {:induction false} PlainLines(data: seq<byte>, q: Request)
    requires PlainName(q.user)
    ensures Lines(Whole(data, q)) == UpdatedLines(Lines(data), q)
  {
    hide Lines, Join, Replaced, FormatEntry, OneLine;
    var ls := Lines(data);
    LinesAreLines(data);
    forall i: nat
      ensures OneLine(Line(q, i))
    {
      EntryOneLine(q.user, q.password, q.salts(i));
    }
    ReplacedOneLine(ls, q, 0);
    LinesOfJoin(UpdatedLines(ls, q));
  }

  /** With any other name the file is kept and the new text follows it. */
  lemma {:induction false} OddLines(data: seq<byte>, q: Request)
    requires !PlainName(q.user)
    ensures Lines(Whole(data, q)) == Lines(data) + Lines(Line(q, 0) + [NEWLINE])
  {
    hide Lines, Join, FormatEntry, PlainName, Replaced;
    var ls := Lines(data);
    LinesAreLines(data);
    NeverFound(ls, q.user);
    ReplacedNone(ls, q, 0);
    JoinSnoc(ls, Line(q, 0));
    Assoc(Join(ls), Line(q, 0), [NEWLINE]);
    LinesAppend(ls, Line(q, 0) + [NEWLINE]);
  }

  lemma {:induction false} ReplacedNone(ls: seq<seq<byte>>, q: Request, k: nat)
    requires Matches(ls, q.user) == 0
    ensures Replaced(ls, q, k) == ls
    decreases |ls|
  {
    hide NameOf;
    if ls != [] {
      ReplacedNone(ls[1..], q, k);
    }
  }

  /** The first line of the account after an update is the first line formatted for it. */
  lemma {:induction false} FindUpdated(ls: seq<seq<byte>>, q: Request)
    requires NameOf(Line(q, 0)) == Some(q.user)
    ensures FindEntry(UpdatedLines(ls, q), q.user) == Some(EntryOf(Line(q, 0)))
    ensures Position(UpdatedLines(ls, q), q.user) == Position(ls, q.user)
    decreases |ls|
  {
    hide NameOf, EntryOf, Line;
    if ls == [] {
      assert UpdatedLines(ls, q) == [Line(q, 0)];
    } else if NameOf(ls[0]) != Some(q.user) {
      FindUpdated(ls[1..], q);
      assert UpdatedLines(ls, q)[1..] == UpdatedLines(ls[1..], q);
    }
  }

  /** When the formatted lines do not name the account, no line does any more. */
  lemma {:induction false} FindGone(ls: seq<seq<byte>>, q: Request)
    requires forall i: nat :: NameOf(Line(q, i)) != Some(q.user)
    ensures FindEntry(UpdatedLines(ls, q), q.user) == None
  {
    hide NameOf, EntryOf, Line, Replaced;
    ReplacedGone(ls, q, 0);
    FindAppend(Replaced(ls, q, 0), if Matches(ls, q.user) > 0 then [] else [Line(q, 0)], q.user);
    assert [Line(q, 0)][1..] == [];
  }

  lemma {:induction false} ReplacedGone(ls: seq<seq<byte>>, q: Request, k: nat)
    requires forall i: nat :: NameOf(Line(q, i)) != Some(q.user)
    ensures FindEntry(Replaced(ls, q, k), q.user) == None
    decreases |ls|
  {
    hide NameOf, EntryOf, Line;
    if ls != [] {
      var j := if NameOf(ls[0]) == Some(q.user) then k + 1 else k;
      ReplacedGone(ls[1..], q, j);
      assert Replaced(ls, q, k)[1..] == Replaced(ls[1..], q, j);
    }
  }

  lemma {:induction false} FindAppend(a: seq<seq<byte>>, b: seq<seq<byte>>, user: seq<byte>)
    ensures FindEntry(a + b, user) == if FindEntry(a, user).Some? then FindEntry(a, user) else FindEntry(b, user)
    decreases |a|
  {
    hide NameOf, EntryOf;
    if a == [] {
      assert a + b == b;
    } else {
      FindAppend(a[1..], b, user);
      assert (a + b)[1..] == a[1..] + b;
    }
  }

  /** The name can be spelled, leaves room for the field, and the whole entry is inside the buffer. */
  ghost predicate EntryKept(data: seq<byte>, user: seq<byte>) {
    && PlainName(user) && |user| <= NAME_MAX
    && Position(Lines(data), user) + |user| + 1 + FIELD_LEN <= FILE_MAX
  }

  /** What the account's lookup gives after an update. */
  lemma {:induction false} EntryAfter(data: seq<byte>, q: Request)
    ensures EntryKept(data, q.user) ==>
              Lookup(Update(data, q), q.user)
              == Some(FormatField(Field(q.salts(0), HashPassword(q.password, q.salts(0)))))
    ensures !EntryKept(data, q.user) ==>
              var e := Lookup(Update(data, q), q.user); e == None || |e.value| < FIELD_LEN
  {
    hide Lines, UpdatedLines, FormatEntry, Update, FindEntry, NameOf, EntryOf, HashPassword, FormatField,
      Whole, Position, PlainName, AllOneLine;
    LookupAfter(data, q, q.user);
    if !PlainName(q.user) {
      LinesAreLines(Whole(data, q));
      NeverFound(Lines(Whole(data, q)), q.user);
    } else {
      var ls := Lines(data);
      PlainLines(data, q);
      forall i: nat
        ensures |q.user| >= ENTRY_MAX ==> NameOf(Line(q, i)) == None
      {
        EntryShape(q.user, q.password, q.salts(i));
      }
      if |q.user| >= ENTRY_MAX {
        FindGone(ls, q);
      } else {
        EntryShape(q.user, q.password, q.salts(0));
        FindUpdated(ls, q);
        var e := EntryOf(Line(q, 0));
        assert e[..|e|] == e;
      }
    }
  }

  /**
   Setting a password and then verifying it succeeds exactly when the name has no colon or
   newline and at most 43 bytes and its line ends inside the 4096-byte buffer; otherwise the
   account is locked.
   */
  lemma {:induction false} UpdateThenVerifyIff(data: seq<byte>, q: Request)
    ensures Verify(Update(data, q), q.user, q.password) == if EntryKept(data, q.user) then Accepted else Rejected
  {
    hide Update, Lookup, EntryKept, HashPassword, FormatField, ParseField, Stored;
    AttemptAfter(data, q, q.password);
  }

  /** After an update a password gets in exactly by the stored hash. */
  lemma {:induction false} AttemptAfter(data: seq<byte>, q: Request, attempt: seq<byte>)
    ensures var f := Field(q.salts(0), HashPassword(q.password, q.salts(0)));
            Verify(Update(data, q), q.user, attempt) ==
            if !EntryKept(data, q.user) then Rejected
            else if HashPassword(attempt, f.salt) == f.hash then Accepted
            else if LegacyHash(attempt, f.salt) == f.hash then AcceptedLegacy
            else Rejected
  {
    hide Update, Lookup, EntryKept, HashPassword, LegacyHash, FormatField, ParseField, Stored;
    EntryAfter(data, q);
    if EntryKept(data, q.user) {
      StoredField(Field(q.salts(0), HashPassword(q.password, q.salts(0))));
    } else {
      var e := Lookup(Update(data, q), q.user);
      if e.Some? {
        StoredShort(e.value);
      }
    }
  }

  // ---- the other accounts ----

  lemma {:induction false} ReplacedOthers(ls: seq<seq<byte>>, q: Request, k: nat, other: seq<byte>)
    requires other != q.user && forall i: nat :: NameOf(Line(q, i)) != Some(other)
    ensures FindEntry(Replaced(ls, q, k), other) == FindEntry(ls, other)
    decreases |ls|
  {
    hide NameOf, EntryOf, Line;
    if ls != [] {
      var j := if NameOf(ls[0]) == Some(q.user) then k + 1 else k;
      ReplacedOthers(ls[1..], q, j, other);
      assert Replaced(ls, q, k)[1..] == Replaced(ls[1..], q, j);
    }
  }

  /** Before the cut: a plain name's update leaves every other account's entry; any other name's can only add. */
  lemma {:induction false} OthersBefore(data: seq<byte>, q: Request, other: seq<byte>)
    requires other != q.user
    ensures PlainName(q.user) ==> FindEntry(Lines(Whole(data, q)), other) == Lookup(data, other)
    ensures Lookup(data, other).Some? ==> FindEntry(Lines(Whole(data, q)), other) == Lookup(data, other)
  {
    hide Lines, FormatEntry, FindEntry, NameOf, EntryOf, Whole, Replaced;
    var ls := Lines(data);
    if PlainName(q.user) {
      PlainLines(data, q);
      forall i: nat
        ensures NameOf(Line(q, i)) != Some(other)
      {
        EntryShape(q.user, q.password, q.salts(i));
      }
      ReplacedOthers(ls, q, 0, other);
      var added := if Matches(ls, q.user) > 0 then [] else [Line(q, 0)];
      FindAppend(Replaced(ls, q, 0), added, other);
      NotAdded(added, other);
    } else {
      OddLines(data, q);
      FindAppend(ls, Lines(Line(q, 0) + [NEWLINE]), other);
    }
  }

  lemma NotAdded(ls: seq<seq<byte>>, other: seq<byte>)
    requires |ls| <= 1 && (ls != [] ==> NameOf(ls[0]) != Some(other))
    ensures FindEntry(ls, other) == None
  {
    if ls != [] {
      assert ls[1..] == [];
    }
  }

  /** The length of every line formatted for a name of `n` bytes. */
  function LineLength(n: nat): (len: nat) {
    if n >= ENTRY_MAX then ENTRY_MAX else if n > NAME_MAX then n + 1 else n + 1 + FIELD_LEN
  }

  /** Where the first line of `other` starts once the lines of `user` have their new length. */
  function Shifted(ls: seq<seq<byte>>, user: seq<byte>, other: seq<byte>): (n: nat) {
    if ls == [] || NameOf(ls[0]) == Some(other) then 0
    else (if NameOf(ls[0]) == Some(user) then LineLength(|user|) else |ls[0]|) + 1 + Shifted(ls[1..], user, other)
  }

  /** What every line formatted for a name begins with, whatever the password and the salt. */
  function Spelled(user: seq<byte>): (t: seq<byte>) {
    if |user| >= ENTRY_MAX then user[..ENTRY_MAX] else user + [COLON]
  }

  /** An account that is there keeps its entry; one that is not stays absent. Read off the file and the names. */
  ghost predicate OtherKept(data: seq<byte>, user: seq<byte>, other: seq<byte>) {
    var ls, text := Lines(data), Lines(Spelled(user) + [NEWLINE]);
    var e := FindEntry(ls, other);
    if e.Some? then Shifted(ls, user, other) + |other| + 1 + |e.value| <= FILE_MAX
    else PlainName(user) || FindEntry(text, other) == None
         || Position(ls, other) + Position(text, other) + |other| + 1 > FILE_MAX
  }

  /**
   Exactly when another account's lookup is unchanged. An account that was there: its entry,
   moved by the new lines of `user` in front of it, still ends inside the buffer. One that was
   not: the name spells no line for it, which a plain name never does, or only past the buffer.
   */
  lemma {:induction false} OtherUnchangedIff(data: seq<byte>, q: Request, other: seq<byte>)
    requires other != q.user
    ensures Lookup(Update(data, q), other) == Lookup(data, other) <==> OtherKept(data, q.user, other)
  {
    hide Lines, Whole, Update, FindEntry, Position, Shifted, PlainName, Spelled, LineLength;
    UnchangedByCut(data, q, other);
    if Lookup(data, other).Some? {
      PresentMoves(data, q, other);
    } else if !PlainName(q.user) {
      AbsentSpelled(data, q, other);
    }
  }

  /** The same in terms of the rewritten file before its cut. */
  lemma {:induction false} UnchangedByCut(data: seq<byte>, q: Request, other: seq<byte>)
    requires other != q.user
    ensures var ls := Lines(Whole(data, q));
            var start := Position(ls, other) + |other| + 1;
            Lookup(Update(data, q), other) == Lookup(data, other) <==>
            if Lookup(data, other).Some? then start + |Lookup(data, other).value| <= FILE_MAX
            else PlainName(q.user) || FindEntry(ls, other) == None || start > FILE_MAX
  {
    hide Lines, Whole, Update, FindEntry, Position, Lookup, PlainName;
    LookupAfter(data, q, other);
    OthersBefore(data, q, other);
    var e := Lookup(data, other);
    if e.Some? {
      assert e.value[..|e.value|] == e.value;
    }
  }

  lemma {:induction false} PositionAppend(a: seq<seq<byte>>, b: seq<seq<byte>>, user: seq<byte>)
    ensures Position(a + b, user)
         == Position(a, user) + if FindEntry(a, user).Some? then 0 else Position(b, user)
    decreases |a|
  {
    hide NameOf, EntryOf;
    if a == [] {
      assert a + b == b;
    } else {
      PositionAppend(a[1..], b, user);
      assert (a + b)[1..] == a[1..] + b;
    }
  }

  lemma {:induction false} ReplacedPosition(ls: seq<seq<byte>>, q: Request, k: nat, other: seq<byte>)
    requires other != q.user && FindEntry(ls, other).Some?
    requires forall i: nat :: NameOf(Line(q, i)) != Some(other) && |Line(q, i)| == LineLength(|q.user|)
    ensures Position(Replaced(ls, q, k), other) == Shifted(ls, q.user, other)
    decreases |ls|
  {
    hide NameOf, EntryOf, Line, LineLength;
    if NameOf(ls[0]) != Some(other) {
      var j := if NameOf(ls[0]) == Some(q.user) then k + 1 else k;
      ReplacedPosition(ls[1..], q, j, other);
      assert Replaced(ls, q, k)[1..] == Replaced(ls[1..], q, j);
    }
  }

  lemma {:induction false} ShiftedByNothing(ls: seq<seq<byte>>, user: seq<byte>, other: seq<byte>)
    requires Matches(ls, user) == 0
    ensures Shifted(ls, user, other) == Position(ls, other)
    decreases |ls|
  {
    hide NameOf, LineLength;
    if ls != [] {
      ShiftedByNothing(ls[1..], user, other);
    }
  }

  lemma LineShape(q: Request, k: nat)
    ensures |Line(q, k)| == LineLength(|q.user|)
    ensures var t := Spelled(q.user);
            && |t| <= |Line(q, k)| && Line(q, k)[..|t|] == t
            && forall i :: |t| <= i < |Line(q, k)| ==> Line(q, k)[i] != COLON
  {
    hide HashPassword, Hex;
    var f := Field(q.salts(k), HashPassword(q.password, q.salts(k)));
    FieldHasNoColon(f);
    assert |q.user| > NAME_MAX ==> Line(q, k)[..|Spelled(q.user)|] == Spelled(q.user);
  }

  lemma FieldHasNoColon(f: Field)
    requires |f.salt| == SALT_LEN && |f.hash| == 32
    ensures forall i :: 0 <= i < FIELD_LEN ==> FormatField(f)[i] != COLON
  {
    hide Hex;
  }

  /** An account that is there starts where the new lines in front of it push it. */
  lemma {:induction false} PresentMoves(data: seq<byte>, q: Request, other: seq<byte>)
    requires other != q.user && Lookup(data, other).Some?
    ensures Position(Lines(Whole(data, q)), other) == Shifted(Lines(data), q.user, other)
  {
    hide Lines, FormatEntry, FindEntry, NameOf, EntryOf, Whole, Replaced, LineLength, Position, Shifted, Spelled;
    var ls := Lines(data);
    if PlainName(q.user) {
      PlainLines(data, q);
      forall i: nat
        ensures NameOf(Line(q, i)) != Some(other) && |Line(q, i)| == LineLength(|q.user|)
      {
        EntryShape(q.user, q.password, q.salts(i));
        LineShape(q, i);
      }
      ReplacedOthers(ls, q, 0, other);
      ReplacedPosition(ls, q, 0, other);
      PositionAppend(Replaced(ls, q, 0), if Matches(ls, q.user) > 0 then [] else [Line(q, 0)], other);
    } else {
      OddLines(data, q);
      PositionAppend(ls, Lines(Line(q, 0) + [NEWLINE]), other);
      LinesAreLines(data);
      NeverFound(ls, q.user);
      ShiftedByNothing(ls, q.user, other);
    }
  }

  /** The colon behind a found name is where the lookup says. */
  lemma {:induction false} ColonThere(ls: seq<seq<byte>>, user: seq<byte>)
    requires FindEntry(ls, user).Some?
    ensures Position(ls, user) + |user| < |Join(ls)| && Join(ls)[Position(ls, user) + |user|] == COLON
    decreases |ls|
  {
    hide Index, EntryOf;
    if NameOf(ls[0]) != Some(user) {
      ColonThere(ls[1..], user);
    }
  }

  /** A cut behind the colon does not move the account's first line. */
  lemma {:induction false} PositionCut(ls: seq<seq<byte>>, user: seq<byte>, k: nat)
    requires AllOneLine(ls) && FindEntry(ls, user).Some? && Position(ls, user) + |user| < k <= |Join(ls)|
    ensures Position(Lines(Join(ls)[..k]), user) == Position(ls, user)
    decreases |ls|
  {
    hide Index, NameOf, EntryOf, Lines;
    var l, rest, data := ls[0], ls[1..], Join(ls);
    if k <= |l| {
      assert data[..k] == l[..k];
      OnlyLine(l[..k]);
      CutLine(l, k);
    } else {
      var j := k - |l| - 1;
      assert data[..k] == l + [NEWLINE] + Join(rest)[..j];
      FrontLine(l, Join(rest)[..j]);
      assert ([l] + Lines(Join(rest)[..j]))[1..] == Lines(Join(rest)[..j]);
      if NameOf(l) != Some(user) {
        PositionCut(rest, user, j);
      }
    }
  }

  /** Which accounts a formatted line names, and where, does not depend on password or salt. */
  lemma {:induction false} SpelledDecides(line: seq<byte>, t: seq<byte>, other: seq<byte>)
    requires |t| <= |line| && line[..|t|] == t && forall i :: |t| <= i < |line| ==> line[i] != COLON
    requires t != [] && (|t| < |line| ==> t[|t| - 1] != NEWLINE)
    ensures var long, short := Lines(line + [NEWLINE]), Lines(t + [NEWLINE]);
            && (FindEntry(long, other) == None <==> FindEntry(short, other) == None)
            && (FindEntry(long, other).Some? ==> Position(long, other) == Position(short, other))
  {
    hide Index, NameOf, EntryOf, Lines, Join, FindEntry, Position, CutEntry, Ended;
    if |t| == |line| {
      assert line[..|t|] == line;
    } else {
      var whole := line + [NEWLINE];
      var ls := Lines(whole);
      LinesAreLines(whole);
      EndsInNewline(line);
      JoinOfLines(whole);
      assert whole[..|t|] == t;
      FindCut(ls, other, |t|);
      CutFound(ls, other, |t|);
      SameLines(t);
      if FindEntry(ls, other).Some? {
        ColonThere(ls, other);
        PositionCut(ls, other, |t|);
      }
    }
  }

  lemma CutFound(ls: seq<seq<byte>>, other: seq<byte>, k: nat)
    ensures CutEntry(ls, other, k).Some? <==> FindEntry(ls, other).Some? && Position(ls, other) + |other| < k
  {
  }

  lemma EndsInNewline(line: seq<byte>)
    ensures Ended(line + [NEWLINE])
  {
  }

  /** A last newline more makes no difference to the lines. */
  lemma SameLines(t: seq<byte>)
    requires t != [] && t[|t| - 1] != NEWLINE
    ensures Lines(t) == Lines(t + [NEWLINE])
  {
    hide Index, Lines, Join;
    JoinOfLines(t);
    LinesAreLines(t);
    LinesOfJoin(Lines(t));
  }

  /** An account that was not there is named by the new text exactly when the name spells it. */
  lemma {:induction false} AbsentSpelled(data: seq<byte>, q: Request, other: seq<byte>)
    requires !PlainName(q.user) && Lookup(data, other) == None
    ensures var ls, text := Lines(Whole(data, q)), Lines(Spelled(q.user) + [NEWLINE]);
            && (FindEntry(ls, other) == None <==> FindEntry(text, other) == None)
            && (FindEntry(ls, other).Some? ==>
                  Position(ls, other) == Position(Lines(data), other) + Position(text, other))
  {
    hide Lines, FormatEntry, FindEntry, NameOf, EntryOf, Whole, LineLength, Position;
    OddLines(data, q);
    var added := Lines(Line(q, 0) + [NEWLINE]);
    FindAppend(Lines(data), added, other);
    PositionAppend(Lines(data), added, other);
    LineShape(q, 0);
    SpelledDecides(Line(q, 0), Spelled(q.user), other);
  }

  /** The length of the rewritten file before its cut. */
  function NewLength(ls: seq<seq<byte>>, user: seq<byte>): (n: nat) {
    if ls == [] then 0
    else (if NameOf(ls[0]) == Some(user) then LineLength(|user|) else |ls[0]|) + 1 + NewLength(ls[1..], user)
  }

  lemma {:induction false} ShiftedInside(ls: seq<seq<byte>>, user: seq<byte>, other: seq<byte>)
    requires FindEntry(ls, other).Some? && other != user
    ensures Shifted(ls, user, other) + |other| + 1 + |FindEntry(ls, other).value| <= NewLength(ls, user)
    decreases |ls|
  {
    hide Index, NameOf, EntryOf, LineLength;
    if NameOf(ls[0]) == Some(other) {
      NameLength(ls[0]);
    } else {
      ShiftedInside(ls[1..], user, other);
    }
  }

  /** A plain name's update that fits its buffer leaves every other account alone. */
  lemma {:induction false} UpdateKeepsOthers(data: seq<byte>, q: Request, other: seq<byte>)
    requires PlainName(q.user) && NewLength(Lines(data), q.user) <= FILE_MAX && other != q.user
    ensures Lookup(Update(data, q), other) == Lookup(data, other)
  {
    hide Lines, Update, FindEntry, Position, PlainName, Shifted, NewLength, Spelled;
    OtherUnchangedIff(data, q, other);
    if Lookup(data, other).Some? {
      ShiftedInside(Lines(data), q.user, other);
    }
  }

  /** The check the account tools make before they write a name. */
  predicate ValidName(user: seq<byte>) {
    && 0 < |user| <= 31
    && forall i :: 0 <= i < |user| ==>
         || 48 <= user[i] <= 57 || 65 <= user[i] <= 90 || 97 <= user[i] <= 122
         || user[i] == 45 || user[i] == 46 || user[i] == 95
  }

  /** A checked name in a file with room: the new password works, and no other account changes. */
  lemma {:induction false} CheckedNameWorks(data: seq<byte>, q: Request, other: seq<byte>)
    requires ValidName(q.user) && other != q.user && NewLength(Lines(data), q.user) <= FILE_MAX
    requires Position(Lines(data), q.user) + |q.user| + 1 + FIELD_LEN <= FILE_MAX
    ensures Verify(Update(data, q), q.user, q.password) == Accepted
    ensures Lookup(Update(data, q), other) == Lookup(data, other)
  {
    hide Update, Verify, Lookup, Position, NewLength, Lines;
    UpdateThenVerifyIff(data, q);
    UpdateKeepsOthers(data, q, other);
  }

  /** A failing case: setting a password for the name `b:x` gives an absent account `b` an entry. */
  lemma {:induction false} ColonNamesAnother(b: seq<byte>, x: seq<byte>, password: seq<byte>, salts: nat -> Salt)
    requires PlainName(b) && PlainName(x) && |b| + 1 + |x| < ENTRY_MAX
    ensures var q := Request(b + [COLON] + x, password, salts);
            Lookup([], b) == None && Lookup(Update([], q), b).Some?
  {
    hide Lines, Whole, Update, FormatField, HashPassword, NameOf, EntryOf, Join;
    var q := Request(b + [COLON] + x, password, salts);
    var line := Line(q, 0);
    LookupAfter([], q, b);
    assert q.user[|b|] == COLON;
    OddLines([], q);
    NoLines([]);
    var rest := line[|b| + 1..];
    assert line == b + [COLON] + rest;
    NameOfEntry(b, rest);
    FirstPiece(line, b);
    FindAppend([], Lines(line + [NEWLINE]), b);
  }

  /** The first piece of a line keeps the name in front of its first colon. */
  lemma {:induction false} FirstPiece(line: seq<byte>, b: seq<byte>)
    requires NameOf(line) == Some(b) && PlainName(b)
    ensures FindEntry(Lines(line + [NEWLINE]), b).Some? && Position(Lines(line + [NEWLINE]), b) == 0
  {
    hide Index, Lines, NameOf, EntryOf;
    var t := line + [NEWLINE];
    var n := Index(t, NEWLINE);
    LastLine(t, n);
    assert t[|line|] == NEWLINE;
    assert n <= |line|;
    var c := ColonAt(line, b);
    assert c < n;
    assert t[..n] == line[..n];
    CutLine(line, n);
    assert Lines(t)[0] == line[..n];
  }

  lemma ColonAt(line: seq<byte>, b: seq<byte>) returns (c: nat)
    requires NameOf(line) == Some(b) && PlainName(b)
    ensures c == |b| < |line| && line[c] == COLON && forall i :: 0 <= i <= c ==> line[i] != NEWLINE
  {
    hide Index;
    c := Index(line, COLON);
    assert b == line[..c];
  }

  // ---- delete ----

  lemma {:induction false} KeptFind(ls: seq<seq<byte>>, user: seq<byte>, who: seq<byte>)
    ensures FindEntry(Kept(ls, user), who) == if who == user then None else FindEntry(ls, who)
    decreases |ls|
  {
    hide NameOf, EntryOf;
    if ls != [] {
      KeptFind(ls[1..], user, who);
      if NameOf(ls[0]).Some? && NameOf(ls[0]) != Some(user) {
        assert Kept(ls, user)[1..] == Kept(ls[1..], user);
      } else {
        assert Kept(ls, user) == Kept(ls[1..], user);
      }
    }
  }

  lemma {:induction false} KeptOneLine(ls: seq<seq<byte>>, user: seq<byte>)
    requires AllOneLine(ls)
    ensures AllOneLine(Kept(ls, user))
    decreases |ls|
  {
    hide NameOf, OneLine;
    if ls != [] {
      KeptOneLine(ls[1..], user);
    }
  }

  lemma {:induction false} KeptShorter(ls: seq<seq<byte>>, user: seq<byte>)
    ensures |Join(Kept(ls, user))| <= |Join(ls)|
    ensures |Join(Kept(ls, user))| == |Join(ls)| ==> Kept(ls, user) == ls
    decreases |ls|
  {
    hide NameOf, Join, Kept;
    KeptCons(ls, user);
    if ls != [] {
      var l, rest := ls[0], ls[1..];
      KeptShorter(rest, user);
      assert ls == [l] + rest;
      JoinCons(l, rest);
      JoinCons(l, Kept(rest, user));
    }
  }

  lemma KeptCons(ls: seq<seq<byte>>, user: seq<byte>)
    ensures ls == [] ==> Kept(ls, user) == []
    ensures ls != [] ==>
              Kept(ls, user) == if NameOf(ls[0]).Some? && NameOf(ls[0]) != Some(user) then [ls[0]] + Kept(ls[1..], user)
                                else Kept(ls[1..], user)
  {
    hide NameOf;
  }

  /** Deleting an account removes every line of it and no other account's entry. */
  lemma {:induction false} DeleteExact(data: seq<byte>, user: seq<byte>, who: seq<byte>)
    requires |data| <= FILE_MAX
    ensures Lookup(Delete(data, user), who) == if who == user then None else Lookup(data, who)
  {
    hide Lines, Join, Kept, FindEntry, AllOneLine;
    var ls := Lines(data);
    var kept := Kept(ls, user);
    KeptFind(ls, user, who);
    KeptShorter(ls, user);
    JoinOfLines(data);
    if |Join(kept)| <= FILE_MAX {
      LinesAreLines(data);
      KeptOneLine(ls, user);
      LinesOfJoin(kept);
      assert Join(kept)[..|Join(kept)|] == Join(kept);
    } else {
      assert (data + [NEWLINE])[..FILE_MAX] == data;
    }
  }

  // ---- the code ----

  lemma CapCap(a: seq<byte>, b: seq<byte>)
    ensures Cap(Cap(a) + b) == Cap(a + b)
  {
    if |a| > FILE_MAX {
      assert Cap(Cap(a) + b) == a[..FILE_MAX];
      assert (a + b)[..FILE_MAX] == a[..FILE_MAX];
    } else {
      assert Cap(a) == a;
    }
  }

  lemma {:induction false} JoinSnoc(ls: seq<seq<byte>>, l: seq<byte>)
    ensures Join(ls + [l]) == Join(ls) + l + [NEWLINE]
    decreases |ls|
  {
    if ls == [] {
      assert ls + [l] == [l];
      assert Join([l][1..]) == [];
    } else {
      JoinSnoc(ls[1..], l);
      assert (ls + [l])[1..] == ls[1..] + [l];
      Assoc(ls[0] + [NEWLINE], Join(ls[1..]) + l, [NEWLINE]);
      Assoc(ls[0] + [NEWLINE], Join(ls[1..]), l);
    }
  }

  /** A line and its newline, as far as the buffer has room. */
  method Emit(out: seq<byte>, l: seq<byte>, ghost done: seq<seq<byte>>) returns (r: seq<byte>)
    requires out == Cap(Join(done))
    ensures r == Cap(Join(done + [l]))
  {
    hide Join;
    var end := Min(|out| + |l|, FILE_MAX);
    r := out + l[..end - |out|];
    assert r == Cap(out + l);
    if |r| < FILE_MAX {
      r := r + [NEWLINE];
    }
    assert r == Cap(Cap(out + l) + [NEWLINE]);
    CapCap(out + l, [NEWLINE]);
    Assoc(out, l, [NEWLINE]);
    CapCap(Join(done), l + [NEWLINE]);
    Assoc(Join(done), l, [NEWLINE]);
    JoinSnoc(done, l);
  }

  method Find(s: seq<byte>, from: nat, c: byte) returns (i: nat)
    requires from <= |s|
    ensures i == from + Index(s[from..], c)
  {
    hide Index;
    i := from;
    while i < |s| && s[i] != c
      invariant from <= i <= |s| && forall k :: from <= k < i ==> s[k] != c
    {
      i := i + 1;
    }
    var rest := s[from..];
    assert forall k :: 0 <= k < i - from ==> rest[k] == s[from + k];
    assert i < |s| ==> rest[i - from] == c;
    IndexUnique(rest, c, i - from);
  }

  lemma {:induction false} ReplacedSnoc(ls: seq<seq<byte>>, l: seq<byte>, q: Request, k: nat)
    ensures Replaced(ls + [l], q, k)
         == Replaced(ls, q, k) + [if NameOf(l) == Some(q.user) then Line(q, k + Matches(ls, q.user)) else l]
    decreases |ls|
  {
    hide NameOf, Line;
    if ls == [] {
      assert ls + [l] == [l];
      assert [l][1..] == [];
    } else {
      ReplacedSnoc(ls[1..], l, q, if NameOf(ls[0]) == Some(q.user) then k + 1 else k);
      assert (ls + [l])[1..] == ls[1..] + [l];
    }
  }

  lemma {:induction false} MatchesSnoc(ls: seq<seq<byte>>, l: seq<byte>, user: seq<byte>)
    ensures Matches(ls + [l], user) == Matches(ls, user) + if NameOf(l) == Some(user) then 1 else 0
    decreases |ls|
  {
    hide NameOf;
    if ls == [] {
      assert ls + [l] == [l];
      assert [l][1..] == [];
    } else {
      MatchesSnoc(ls[1..], l, user);
      assert (ls + [l])[1..] == ls[1..] + [l];
    }
  }

  /** The part of the file still to be read splits off its first line. */
  lemma NextLine(data: seq<byte>, pos: nat, n: nat)
    requires pos < |data| && n == Index(data[pos..], NEWLINE)
    ensures pos + n <= |data|
    ensures Lines(data[pos..]) ==
            [data[pos..pos + n]] + if pos + n < |data| then Lines(data[pos + n + 1..]) else []
  {
    hide Index;
    var rest := data[pos..];
    SliceOfSlice(data, pos, |data|, 0, n);
    assert rest[..n] == data[pos..pos + n];
    if n < |rest| {
      assert rest[n + 1..] == data[pos + n + 1..];
    }
  }

  /** Lines from `pos` on; past the end there are none. */
  ghost function Remaining(data: seq<byte>, pos: nat): (ls: seq<seq<byte>>) {
    if pos < |data| then Lines(data[pos..]) else []
  }

  method SplitLine(data: seq<byte>, pos: nat, ghost seen: seq<seq<byte>>) returns (l: seq<byte>, next: nat)
    requires pos < |data| && Lines(data) == seen + Remaining(data, pos)
    ensures pos < next && Lines(data) == seen + [l] + Remaining(data, next)
  {
    hide Lines, Index;
    var end := Find(data, pos, NEWLINE);
    NextLine(data, pos, end - pos);
    l := data[pos..end];
    next := end + 1;
    NoLines(data[|data|..]);
    if next == |data| {
      assert data[next..] == data[|data|..];
    }
    Assoc(seen, [l], Remaining(data, next));
  }

  lemma NoLines(s: seq<byte>)
    ensures s == [] ==> Lines(s) == []
  {
  }

  method UpdateFile(data: seq<byte>, q: Request) returns (out: seq<byte>)
    ensures out == Update(data, q)
  {
    hide Lines, Join, Replaced, Matches, NameOf, FormatEntry, Cap;
    out := [];
    var found := 0;
    var pos := 0;
    ghost var seen: seq<seq<byte>>, done: seq<seq<byte>> := [], [];
    Begins(data, q);
    while pos < |data|
      invariant Lines(data) == seen + Remaining(data, pos)
      invariant done == Replaced(seen, q, 0) && found == Matches(seen, q.user)
      invariant out == Cap(Join(done))
      decreases |data| - pos
    {
      var l, next := SplitLine(data, pos, seen);
      ReplacedSnoc(seen, l, q, 0);
      MatchesSnoc(seen, l, q.user);
      if NameOf(l) == Some(q.user) {
        var line := Line(q, found);
        out := Emit(out, line, done);
        done := done + [line];
        found := found + 1;
      } else {
        out := Emit(out, l, done);
        done := done + [l];
      }
      seen := seen + [l];
      pos := next;
    }
    assert seen + [] == seen;
    if found == 0 {
      out := Emit(out, Line(q, 0), done);
    } else {
      assert done + [] == done;
    }
  }

  lemma Begins(data: seq<byte>, q: Request)
    ensures Lines(data) == [] + Remaining(data, 0)
    ensures Replaced([], q, 0) == [] && Matches([], q.user) == 0 && Cap(Join([])) == []
  {
    assert data[0..] == data;
  }

  lemma BeginsPlain(data: seq<byte>, user: seq<byte>)
    ensures Lines(data) == [] + Remaining(data, 0)
    ensures Kept([], user) == [] && Matches([], user) == 0 && Cap(Join([])) == []
  {
    assert data[0..] == data;
  }

  lemma {:induction false} KeptSnoc(ls: seq<seq<byte>>, l: seq<byte>, user: seq<byte>)
    ensures Kept(ls + [l], user)
         == if NameOf(l).Some? && NameOf(l) != Some(user) then Kept(ls, user) + [l] else Kept(ls, user)
    decreases |ls|
  {
    hide NameOf;
    if ls == [] {
      assert ls + [l] == [l];
      assert Kept([l][1..], user) == [];
    } else {
      KeptSnoc(ls[1..], l, user);
      assert (ls + [l])[1..] == ls[1..] + [l];
    }
  }

  method DeleteFile(data: seq<byte>, user: seq<byte>) returns (out: seq<byte>)
    ensures out == Delete(data, user)
  {
    hide Lines, Join, Kept, NameOf, Cap;
    out := [];
    var pos := 0;
    ghost var seen: seq<seq<byte>> := [];
    BeginsPlain(data, user);
    while pos < |data|
      invariant Lines(data) == seen + Remaining(data, pos)
      invariant out == Cap(Join(Kept(seen, user)))
      decreases |data| - pos
    {
      var l, next := SplitLine(data, pos, seen);
      KeptSnoc(seen, l, user);
      if NameOf(l).Some? && NameOf(l) != Some(user) {
        out := Emit(out, l, Kept(seen, user));
      }
      seen := seen + [l];
      pos := next;
    }
    assert seen + [] == seen;
  }

  lemma {:induction false} FindSkips(seen: seq<seq<byte>>, rest: seq<seq<byte>>, user: seq<byte>)
    requires Matches(seen, user) == 0
    ensures FindEntry(seen + rest, user) == FindEntry(rest, user)
    decreases |seen|
  {
    hide NameOf, EntryOf;
    if seen == [] {
      assert seen + rest == rest;
    } else {
      FindSkips(seen[1..], rest, user);
      assert (seen + rest)[1..] == seen[1..] + rest;
    }
  }

  method ReadEntry(data: seq<byte>, user: seq<byte>) returns (e: Option<seq<byte>>)
    ensures e == Lookup(data, user)
  {
    hide Lines, NameOf, EntryOf, Matches;
    var pos := 0;
    ghost var seen: seq<seq<byte>> := [];
    BeginsPlain(data, user);
    while pos < |data|
      invariant Lines(data) == seen + Remaining(data, pos) && Matches(seen, user) == 0
      decreases |data| - pos
    {
      var l, next := SplitLine(data, pos, seen);
      MatchesSnoc(seen, l, user);
      if NameOf(l) == Some(user) {
        FindSkips(seen, [l] + Remaining(data, next), user);
        Assoc(seen, [l], Remaining(data, next));
        return Some(EntryOf(l));
      }
      seen := seen + [l];
      pos := next;
    }
    FindSkips(seen, [], user);
    e := None;
  }
}
