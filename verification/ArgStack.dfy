/** userprog/process.c and strtok_r of lib/string.c: cutting a command line into words and laying them out
    on a new process's stack page.  Positions in the page are offsets; offset k is address STACK_BASE + k. */
module ArgStack {
  import opened Bytes
  import opened Machine
  import opened Options
  import Directory

  const SPACE: Byte := 32
  const MAX_ARGC := 32
  const STACK_BASE: nat := 0xbfff_f000

  type Text = seq<Byte>

  // ---------------------------------------------------------------- words

  function FirstWord(x: Text): (w: Text)
    ensures |w| <= |x| && w == x[..|w|] && SPACE !in w
    ensures |w| < |x| ==> x[|w|] == SPACE
  {
    if x == [] || x[0] == SPACE then [] else [x[0]] + FirstWord(x[1..])
  }

  /** The spaces a line starts with. */
  function Blanks(x: Text): (n: nat)
    ensures n <= |x| && (forall i :: 0 <= i < n ==> x[i] == SPACE) && (n < |x| ==> x[n] != SPACE)
  {
    if x == [] || x[0] != SPACE then 0 else 1 + Blanks(x[1..])
  }

  /** The words of a line: its longest stretches without a space. */
  function Words(x: Text): (ws: seq<Text>)
    decreases |x|
  {
    if x == [] then []
    else if x[0] == SPACE then Words(x[1..])
    else [FirstWord(x)] + Words(x[|FirstWord(x)|..])
  }

  predicate Holds(s: seq<Byte>, at: nat, w: Text) { at + |w| < |s| && s[at..at + |w| + 1] == w + [0] }

  /** Past the delimiters at the current place. */
  method SkipSpaces(s: array<Byte>, start: nat, ghost rest: Text) returns (i: nat, ghost r: Text)
    requires start < s.Length && s[start..] == rest + [0] && NoNull(rest)
    ensures start <= i < s.Length && s[i..] == r + [0] && NoNull(r) && Words(r) == Words(rest) && i == start + Blanks(rest)
    ensures s[i] != SPACE && (s[i] == 0 <==> r == []) && (r != [] ==> r[0] != SPACE)
  {
    i, r := start, rest;
    while s[i] == SPACE
      invariant start <= i < s.Length && s[i..] == r + [0] && NoNull(r) && Words(r) == Words(rest)
      invariant i + Blanks(r) == start + Blanks(rest)
      decreases s.Length - i
    {
      assert s[i] == (r + [0])[0];
      assert s[i + 1..] == r[1..] + [0];
      i, r := i + 1, r[1..];
    }
    assert s[i] == (r + [0])[0];
  }

  /** Past the characters of a word. */
  method FindEnd(s: array<Byte>, i: nat, ghost r: Text) returns (j: nat)
    requires i < s.Length && s[i..] == r + [0] && NoNull(r)
    ensures j == i + |FirstWord(r)| < s.Length && (s[j] == 0 <==> |FirstWord(r)| == |r|)
  {
    j := i;
    while s[j] != SPACE && s[j] != 0
      invariant i <= j <= i + |FirstWord(r)| < s.Length
      decreases s.Length - j
    {
      assert s[j] == s[i..][j - i] == (r + [0])[j - i];
      j := j + 1;
    }
    assert s[j] == s[i..][j - i] == (r + [0])[j - i];
  }

  /** strtok_r with the delimiter " ", on the text from start on, which is rest and a null byte.  The token is
      returned by its place, null-terminated there; left is the text still to be cut. */
  method StrtokR(s: array<Byte>, start: nat, ghost rest: Text) returns (token: Option<nat>, save: nat, ghost left: Text)
    requires start < s.Length && s[start..] == rest + [0] && NoNull(rest)
    modifies s
    ensures start <= save < s.Length && s[save..] == left + [0] && NoNull(left)
    ensures s[..start] == old(s[..start]) && (rest == [] ==> s[..] == old(s[..]))
    ensures token.None? ==> Words(rest) == [] && left == [] && s[..] == old(s[..])
    ensures token.Some? ==> Words(rest) != [] && Words(left) == Words(rest)[1..] && token.value == start + Blanks(rest) <= |s[..]|
    ensures token.Some? ==> s[..token.value] == old(s[..token.value])
    ensures token.Some? ==> Holds(s[..], token.value, Words(rest)[0]) && token.value + |Words(rest)[0]| <= save
    ensures token.Some? ==> token.value + |Words(rest)[0]| < save || left == []
  {
    hide Words, FirstWord;
    var i;
    ghost var r;
    i, r := SkipSpaces(s, start, rest);
    NoWords();
    if s[i] == 0 { return None, i, r; }
    var j := FindEnd(s, i, r);
    ghost var w := FirstWord(r);
    Cut(s[..], i, r);
    NextWords(r);
    left := if |w| == |r| then [] else r[|w| + 1..];
    if s[j] != 0 {
      s[j] := 0;
      save := j + 1;
      assert s[save..] == old(s[..])[save..];
    } else {
      save := j;
    }
    assert s[i..j] == w && s[i..j + 1] == s[i..j] + [s[j]];
    token := Some(i);
  }

  lemma NoWords()
    ensures Words([]) == []
  {
  }

  lemma Cut(s: seq<Byte>, i: nat, r: Text)
    requires i < |s| && s[i..] == r + [0]
    ensures i + |FirstWord(r)| < |s| && s[i..i + |FirstWord(r)|] == FirstWord(r)
    ensures |FirstWord(r)| < |r| ==> s[i + |FirstWord(r)| + 1..] == r[|FirstWord(r)| + 1..] + [0]
    ensures |FirstWord(r)| == |r| ==> s[i + |FirstWord(r)|..] == [0]
  {
    var w := FirstWord(r);
    assert s[i..][..|w|] == s[i..i + |w|];
    assert s[i..][|w|..] == s[i + |w|..];
    if |w| < |r| { assert s[i..][|w| + 1..] == s[i + |w| + 1..]; }
  }

  lemma NextWords(r: Text)
    requires r != [] && r[0] != SPACE
    ensures Words(r) == [FirstWord(r)] + Words(if |FirstWord(r)| == |r| then [] else r[|FirstWord(r)| + 1..])
  {
    var w := FirstWord(r);
    if |w| < |r| { assert r[|w|..][1..] == r[|w| + 1..]; }
  }

  ghost predicate AllHold(s: seq<Byte>, argv: seq<nat>, ws: seq<Text>)
    requires |argv| <= |ws|
  {
    forall k :: 0 <= k < |argv| ==> Holds(s, argv[k], ws[k])
  }

  /** Every token so far lies before save, the last one perhaps ending there when the text is used up. */
  ghost predicate Before(argv: seq<nat>, ws: seq<Text>, save: nat, done: bool)
    requires |argv| <= |ws|
  {
    forall k :: 0 <= k < |argv| ==> argv[k] + |ws[k]| < save || done
  }

  lemma HoldStill(s: seq<Byte>, t: seq<Byte>, argv: seq<nat>, ws: seq<Text>, save: nat, done: bool)
    requires |argv| <= |ws| && AllHold(s, argv, ws) && Before(argv, ws, save, done)
    requires |s| == |t| && save <= |s| && s[..save] == t[..save] && (done ==> s == t)
    ensures AllHold(t, argv, ws)
  {
    forall k | 0 <= k < |argv|
      ensures Holds(t, argv[k], ws[k])
    {
      assert Holds(s, argv[k], ws[k]);
      if !done {
        var a, b := argv[k], argv[k] + |ws[k]| + 1;
        assert s[..save][a..b] == s[a..b] && t[..save][a..b] == t[a..b];
      }
    }
  }

  ghost predicate At(argv: seq<Option<nat>>, places: seq<nat>)
  {
    |places| <= |argv| && forall k :: 0 <= k < |places| ==> argv[k] == Some(places[k])
  }

  /** start_process's loop: the places of the line's words, up to MAX_ARGC of them, and a null pointer behind them as
      long as there are fewer.  A line without a word leaves two null pointers, the first of them counted. */
  method Tokenize(line: array<Byte>, ghost text: Text, argv: array<Option<nat>>) returns (argc: nat, ghost places: seq<nat>)
    requires line.Length > 0 && line[..] == text + [0] && NoNull(text) && argv.Length > MAX_ARGC
    modifies line, argv
    ensures argc == if |Words(text)| == 0 then 1 else if |Words(text)| < MAX_ARGC then |Words(text)| else MAX_ARGC
    ensures argv[0] == None <==> Words(text) == []
    ensures argc < MAX_ARGC ==> argv[argc] == None
    ensures Words(text) != [] ==> |places| == argc <= |Words(text)| && At(argv[..], places) && AllHold(line[..], places, Words(text))
  {
    hide Words, Holds, Blanks;
    ghost var ws := Words(text);
    NoWords();
    assert line[0..] == line[..];
    var token, save;
    ghost var left;
    token, save, left := StrtokR(line, 0, text);
    argv[0] := token;
    argc, places := 1, if token.None? then [] else [token.value];
    while argc < MAX_ARGC
      invariant 1 <= argc <= MAX_ARGC && (ws == [] ==> argc == 1) && argv[0].Some? == (ws != [])
      invariant save < line.Length && line[save..] == left + [0] && NoNull(left)
      invariant ws != [] ==> |places| == argc <= |ws| && At(argv[..], places)
      invariant Words(left) == if ws == [] then [] else ws[argc..]
      invariant ws != [] ==> AllHold(line[..], places, ws) && Before(places, ws, save, left == [])
      decreases MAX_ARGC - argc
    {
      ghost var was, at, rest := line[..], save, left;
      token, save, left := StrtokR(line, save, left);
      if ws != [] { HoldStill(was, line[..], places, ws, at, rest == []); }
      argv[argc] := token;
      if token.None? { break; }
      places := places + [token.value];
      argc := argc + 1;
    }
  }

  // ---------------------------------------------------------------- the stack page

  function GetWord(page: seq<Byte>, at: nat): (w: Word)
    requires at + 4 <= |page|
  {
    WordOf(page[at], page[at + 1], page[at + 2], page[at + 3])
  }

  /** memcpy of a four-byte value. */
  method PutWord(page: array<Byte>, at: nat, w: Word)
    requires at + 4 <= page.Length
    modifies page
    ensures GetWord(page[..], at) == w
    ensures forall k :: 0 <= k < page.Length && !(at <= k < at + 4) ==> page[k] == old(page[k])
  {
    page[at], page[at + 1], page[at + 2], page[at + 3] := ByteOf(w, 0), ByteOf(w, 1), ByteOf(w, 2), ByteOf(w, 3);
    WordOfItsBytes(w);
  }

  method PutText(page: array<Byte>, at: nat, w: Text)
    requires at + |w| < page.Length
    modifies page
    ensures Holds(page[..], at, w)
    ensures forall k :: 0 <= k < page.Length && !(at <= k < at + |w| + 1) ==> page[k] == old(page[k])
  {
    forall k | 0 <= k < |w| + 1 {
      page[at + k] := (w + [0])[k];
    }
  }

  /** The bytes the strings take, from the i-th on, each with its null. */
  function TextBytes(args: seq<Text>, i: nat): (n: nat)
    requires i <= |args|
    decreases |args| - i
  {
    if i == |args| then 0 else |args[i]| + 1 + TextBytes(args, i + 1)
  }

  function AlignDown(sp: nat): (r: nat)
    ensures r <= sp < r + 4 && r % 4 == 0
  {
    sp - sp % 4
  }

  /** Where the words end up, and the final stack pointer. */
  function TextAt(args: seq<Text>, i: nat): (at: int) requires i <= |args| { PGSIZE - TextBytes(args, i) }

  predicate FitsPage(args: seq<Text>) { TextBytes(args, 0) <= PGSIZE && AlignDown(PGSIZE - TextBytes(args, 0)) >= 4 * |args| + 16 }

  function Esp(args: seq<Text>): (sp: nat)
    requires FitsPage(args)
  {
    AlignDown(PGSIZE - TextBytes(args, 0)) - 4 * |args| - 16
  }

  lemma TextOrder(args: seq<Text>, i: nat, j: nat)
    requires i <= j <= |args|
    ensures TextBytes(args, j) <= TextBytes(args, i)
    decreases |args| - i
  {
    if i < j { TextOrder(args, i + 1, j); }
  }

  /** What the new process finds at its stack pointer: a return address, argc, argv, and the strings. */
  ghost predicate Frame(page: seq<Byte>, sp: nat, ret: Word, args: seq<Text>)
  {
    && |page| == PGSIZE && sp % 4 == 0 && sp + 16 + 4 * |args| <= PGSIZE
    && GetWord(page, sp) == ret
    && GetWord(page, sp + 4) == |args|
    && GetWord(page, sp + 8) == STACK_BASE + sp + 12
    && GetWord(page, sp + 12 + 4 * |args|) == 0
    && forall i :: 0 <= i < |args| ==>
         && STACK_BASE + sp + 16 + 4 * |args| <= GetWord(page, sp + 12 + 4 * i)
         && Holds(page, GetWord(page, sp + 12 + 4 * i) - STACK_BASE, args[i])
         && (i + 1 < |args| ==> GetWord(page, sp + 12 + 4 * i) + |args[i]| + 1 <= GetWord(page, sp + 16 + 4 * i))
  }

  lemma HoldsStill(s: seq<Byte>, t: seq<Byte>, at: nat, w: Text)
    requires Holds(s, at, w) && |s| == |t| && forall k :: at <= k < at + |w| + 1 ==> s[k] == t[k]
    ensures Holds(t, at, w)
  {
  }

  ghost predicate TextsFrom(page: seq<Byte>, args: seq<Text>, i: nat)
    requires i <= |args|
  {
    forall k :: i <= k < |args| ==> 0 <= TextAt(args, k) && Holds(page, TextAt(args, k), args[k])
  }

  lemma TextsStill(s: seq<Byte>, t: seq<Byte>, args: seq<Text>, i: nat)
    requires i <= |args| && TextsFrom(s, args, i) && |s| == |t|
    requires forall k :: TextAt(args, i) <= k < |s| && 0 <= k ==> s[k] == t[k]
    ensures TextsFrom(t, args, i)
  {
    forall k | i <= k < |args|
      ensures Holds(t, TextAt(args, k), args[k])
    {
      TextOrder(args, i, k);
      assert Holds(s, TextAt(args, k), args[k]);
      HoldsStill(s, t, TextAt(args, k), args[k]);
    }
  }

  /** The i-th pointer leads to the i-th string. */
  ghost predicate Lead(line: seq<Byte>, argv: seq<Option<nat>>, args: seq<Text>)
  {
    |args| <= |argv| && forall k :: 0 <= k < |args| ==> argv[k].Some? && Holds(line, argv[k].value, args[k]) && NoNull(args[k])
  }

  /** argv as push_args gets it: pointers to the words, or a single null pointer when the line has none. */
  ghost predicate Passed(line: seq<Byte>, argc: nat, argv: seq<Option<nat>>, args: seq<Text>)
  {
    && 1 <= argc <= MAX_ARGC < |argv|
    && if args == [] then argc == 1 && argv[0] == None else argc == |args| && Lead(line, argv, args)
  }

  /** How far its first loop got: all strings laid out, a store below the page, or strlen's assertion on a null pointer. */
  datatype Texts = Laid(sp: nat) | Below | Null

  /** push_args' first loop: the strings, last one first. */
  method PushTexts(page: array<Byte>, line: array<Byte>, argc: nat, argv: array<Option<nat>>, ghost args: seq<Text>,
                   argvAddr: array<Word>) returns (r: Texts)
    requires page.Length == PGSIZE && page != line && argvAddr.Length == MAX_ARGC && Passed(line[..], argc, argv[..], args)
    modifies page, argvAddr
    ensures r.Null? <==> args == []
    ensures r.Below? <==> TextBytes(args, 0) > PGSIZE
    ensures r.Laid? ==> r.sp == TextAt(args, 0) && TextsFrom(page[..], args, 0)
    ensures r.Laid? ==> forall k :: 0 <= k < argc ==> argvAddr[k] == STACK_BASE + TextAt(args, k)
  {
    hide Holds, UpToNull, NoNull;
    var sp := PGSIZE;
    var i := argc - 1;
    assert argv[..][0] == argv[0];
    while i >= 0
      invariant args == [] ==> i == 0
      invariant args != [] ==> -1 <= i < argc && sp == TextAt(args, i + 1) >= 0 && TextsFrom(page[..], args, i + 1)
      invariant line[..] == old(line[..]) && argv[..] == old(argv[..])
      invariant args != [] ==> forall k :: i < k < argc ==> argvAddr[k] == STACK_BASE + TextAt(args, k)
    {
      assert argv[..][i] == argv[i];
      if argv[i].None? { return Null; }
      TextOrder(args, 0, i);
      ghost var was := page[..];
      Held(line[..], argv[i].value, args[i]);
      assert line[argv[i].value..] == line[..][argv[i].value..];
      var w := UpToNull(line[argv[i].value..]);
      if sp < |w| + 1 { return Below; }
      sp := sp - (|w| + 1);
      PutText(page, sp, w);
      TextsStill(was, page[..], args, i + 1);
      argvAddr[i] := STACK_BASE + sp;
      i := i - 1;
    }
    return Laid(sp);
  }

  /** Its second: the pointers, the null sentinel first. */
  method PushPointers(page: array<Byte>, argvAddr: array<Word>, argc: nat, top: nat) returns (sp: nat)
    requires page.Length == PGSIZE && argc < argvAddr.Length && 4 * argc + 4 <= top <= PGSIZE
    modifies page
    ensures sp == top - 4 * argc - 4
    ensures forall k :: 0 <= k <= argc ==> GetWord(page[..], sp + 4 * k) == argvAddr[k]
    ensures forall k :: top <= k < PGSIZE ==> page[k] == old(page[k])
  {
    sp := top;
    var i: int := argc;
    ghost var base := top - 4 * argc - 4;
    while i >= 0
      invariant -1 <= i <= argc && sp == base + 4 * (i + 1)
      invariant forall k :: i < k <= argc ==> GetWord(page[..], base + 4 * k) == argvAddr[k]
      invariant forall k :: top <= k < PGSIZE ==> page[k] == old(page[k])
    {
      sp := sp - 4;
      PutWord(page, sp, argvAddr[i]);
      i := i - 1;
    }
  }

  lemma FrameMade(page: seq<Byte>, sp: nat, ret: Word, args: seq<Text>)
    requires |page| == PGSIZE && FitsPage(args) && sp == Esp(args) && TextsFrom(page, args, 0)
    requires GetWord(page, sp) == ret && GetWord(page, sp + 4) == |args| && GetWord(page, sp + 8) == STACK_BASE + sp + 12
    requires GetWord(page, sp + 12 + 4 * |args|) == 0
    requires forall k :: 0 <= k < |args| ==> GetWord(page, sp + 12 + 4 * k) == STACK_BASE + TextAt(args, k)
    ensures Frame(page, sp, ret, args)
  {
    hide Holds, GetWord;
    forall i | 0 <= i < |args|
      ensures STACK_BASE + sp + 16 + 4 * |args| <= GetWord(page, sp + 12 + 4 * i)
      ensures Holds(page, GetWord(page, sp + 12 + 4 * i) - STACK_BASE, args[i])
      ensures i + 1 < |args| ==> GetWord(page, sp + 12 + 4 * i) + |args[i]| + 1 <= GetWord(page, sp + 16 + 4 * i)
    {
      TextOrder(args, 0, i);
      if i + 1 < |args| { assert sp + 16 + 4 * i == sp + 12 + 4 * (i + 1); }
    }
  }

  lemma WordsStill(s: seq<Byte>, t: seq<Byte>, lo: nat)
    requires |s| == |t| && forall k :: lo <= k < |s| ==> s[k] == t[k]
    ensures forall at :: lo <= at && at + 4 <= |s| ==> GetWord(s, at) == GetWord(t, at)
  {
    hide WordOf;
  }

  /** What becomes of a process that is started: its program is not loaded; strlen is given a null pointer; a store goes
      below the stack page; argv_addr, which has room for 32 pointers, is written at index 32; or the stack is ready. */
  datatype Outcome = NotLoaded | NullString | Faulted | PastTheEnd | Ready(sp: nat)

  /** A pointer into the line, which is at address lineAt. */
  function AsWord(lineAt: Word, p: Option<nat>): (w: Word) { if p.None? then 0 else (lineAt + p.value) % BASE }

  method PushArgs(page: array<Byte>, line: array<Byte>, lineAt: Word, argc: nat, argv: array<Option<nat>>, ghost args: seq<Text>)
    returns (r: Outcome)
    requires page.Length == PGSIZE && page != line && Passed(line[..], argc, argv[..], args)
    modifies page
    ensures !r.NotLoaded? && (r.NullString? <==> args == [])
    ensures r.Faulted? <==> args != [] && (TextBytes(args, 0) > PGSIZE || (argc < MAX_ARGC && !FitsPage(args)))
    ensures r.PastTheEnd? <==> argc == MAX_ARGC && TextBytes(args, 0) <= PGSIZE
    ensures r.Ready? ==> FitsPage(args) && r.sp == Esp(args) && Frame(page[..], r.sp, AsWord(lineAt, argv[argc]), args)
  {
    hide Holds, GetWord, TextBytes, Frame, Lead;
    var argvAddr := new Word[MAX_ARGC];
    var texts := PushTexts(page, line, argc, argv, args, argvAddr);
    if texts.Null? { return NullString; }
    if texts.Below? { return Faulted; }
    var top := texts.sp - texts.sp % 4;
    if argc >= MAX_ARGC { return PastTheEnd; }
    argvAddr[argc] := 0;
    if top < 4 * argc + 16 { return Faulted; }
    var sp := PushRest(page, argvAddr, argc, top, AsWord(lineAt, argv[argc]), args);
    FrameMade(page[..], sp, AsWord(lineAt, argv[argc]), args);
    return Ready(sp);
  }

  /** The pointers, argv, argc and the return address. */
  method PushRest(page: array<Byte>, argvAddr: array<Word>, argc: nat, top: nat, ret: Word, ghost args: seq<Text>) returns (sp: nat)
    requires page.Length == PGSIZE && |args| == argc < argvAddr.Length && argc < MAX_ARGC && FitsPage(args)
    requires top == AlignDown(PGSIZE - TextBytes(args, 0)) && 4 * argc + 16 <= top && TextsFrom(page[..], args, 0) && argvAddr[argc] == 0
    requires forall k :: 0 <= k < argc ==> argvAddr[k] == STACK_BASE + TextAt(args, k)
    modifies page
    ensures sp == Esp(args) && TextsFrom(page[..], args, 0)
    ensures GetWord(page[..], sp) == ret && GetWord(page[..], sp + 4) == argc && GetWord(page[..], sp + 8) == STACK_BASE + sp + 12
    ensures GetWord(page[..], sp + 12 + 4 * argc) == 0
    ensures forall k :: 0 <= k < argc ==> GetWord(page[..], sp + 12 + 4 * k) == STACK_BASE + TextAt(args, k)
  {
    hide Holds, GetWord, TextBytes;
    ghost var texts := page[..];
    sp := PushPointers(page, argvAddr, argc, top);
    ghost var pointers, base := page[..], sp;
    assert GetWord(pointers, base + 4 * argc) == argvAddr[argc];
    var argvPtr := STACK_BASE + sp;
    sp := sp - 4;
    PutWord(page, sp, argvPtr);
    ghost var one := page[..];
    sp := sp - 4;
    PutWord(page, sp, argc);
    ghost var two := page[..];
    sp := sp - 4;
    PutWord(page, sp, ret);
    WordsStill(two, page[..], sp + 4);
    WordsStill(one, two, sp + 8);
    WordsStill(pointers, one, sp + 12);
    TextsStill(texts, page[..], args, 0);
    forall k | 0 <= k < argc
      ensures GetWord(page[..], sp + 12 + 4 * k) == STACK_BASE + TextAt(args, k)
    {
      assert GetWord(pointers, base + 4 * k) == argvAddr[k];
    }
  }

  // ---------------------------------------------------------------- reading it back

  /** Following argv from the stack pointer: the i-th string found. */
  function ArgvAt(page: seq<Byte>, sp: nat, i: nat): (w: Text)
    requires sp + 16 + 4 * i <= |page| && STACK_BASE <= GetWord(page, sp + 12 + 4 * i) <= STACK_BASE + |page|
  {
    UpToNull(page[GetWord(page, sp + 12 + 4 * i) - STACK_BASE..])
  }

  lemma FrameReadsBack(page: seq<Byte>, sp: nat, ret: Word, args: seq<Text>, i: nat)
    requires Frame(page, sp, ret, args) && i < |args| && NoNull(args[i])
    ensures STACK_BASE <= GetWord(page, sp + 12 + 4 * i) <= STACK_BASE + |page| && ArgvAt(page, sp, i) == args[i]
  {
    hide GetWord, UpToNull;
    var at := GetWord(page, sp + 12 + 4 * i) - STACK_BASE;
    assert Holds(page, at, args[i]);
    var t := page[at + |args[i]| + 1..];
    assert page[at..] == args[i] + [0] + t;
    StringReadsBack(args[i], t);
  }

  /** The words push_args is given. */
  function Given(ws: seq<Text>): (args: seq<Text>) { if |ws| < MAX_ARGC then ws else ws[..MAX_ARGC] }

  /** start_process: the program looked for is the thread's name, and with it loaded the line's words go to the stack.
      loads says for which names load succeeds. */
  method StartProcess(line: array<Byte>, lineAt: Word, ghost text: Text, page: array<Byte>, loads: Text -> bool) returns (r: Outcome)
    requires line.Length > 0 && line[..] == text + [0] && NoNull(text) && page != line && page.Length == PGSIZE
    modifies line, page
    ensures r.NotLoaded? <==> !loads(ThreadName(text))
    ensures r.NullString? <==> loads(ThreadName(text)) && Words(text) == []
    ensures r.PastTheEnd? <==> loads(ThreadName(text)) && |Words(text)| >= MAX_ARGC && TextBytes(Given(Words(text)), 0) <= PGSIZE
    ensures r.Ready? <==> loads(ThreadName(text)) && 0 < |Words(text)| < MAX_ARGC && FitsPage(Words(text))
    ensures r.Ready? ==> Frame(page[..], r.sp, 0, Words(text))
    ensures forall i :: 0 <= i < |Words(text)| ==> NoNull(Words(text)[i])
  {
    hide Words, Frame, TextBytes, AlignDown, UpToNull, Holds, NoNull, ThreadName;
    assert line[..line.Length - 1] == text;
    var name := MakeName(line[..line.Length - 1]);
    var argv := new Option<nat>[PGSIZE / 4];
    WordsHaveNoNull(text);
    var argc;
    ghost var places;
    argc, places := Tokenize(line, text, argv);
    if !loads(name) { return NotLoaded; }
    ghost var args := Given(Words(text));
    if args != [] { assert Lead(line[..], argv[..], args); }
    r := PushArgs(page, line, lineAt, argc, argv, args);
  }

  // ---------------------------------------------------------------- the name of the program

  const NAME_SIZE := 16

  function Cropped(x: Text): (y: Text) { if |x| < NAME_SIZE then x else x[..NAME_SIZE - 1] }

  /** t->name: the line cut to 15 characters and ended after its first word; spaces before that stay. */
  function ThreadName(x: Text): (name: Text)
  {
    var y := Cropped(x);
    if Words(y) == [] then y else y[..Blanks(y)] + Words(y)[0]
  }

  /** init_thread's strlcpy and strtok_r, on as much of t->name as the string takes. */
  method MakeName(line: Text) returns (name: Text)
    requires NoNull(line)
    ensures name == ThreadName(line)
  {
    hide Words, UpToNull, Blanks;
    var y := Cropped(line);
    var buffer := new Byte[|y| + 1](k requires 0 <= k < |y| + 1 => (y + [0])[k]);
    assert buffer[..] == y + [0] && buffer[0..] == buffer[..];
    var token, save;
    ghost var left;
    token, save, left := StrtokR(buffer, 0, y);
    NameInBuffer(buffer[..], y, token);
    name := UpToNull(buffer[..]);
  }

  lemma NameInBuffer(b: seq<Byte>, y: Text, token: Option<nat>)
    requires NoNull(y) && |b| == |y| + 1
    requires token.None? ==> Words(y) == [] && b == y + [0]
    requires token.Some? ==> Words(y) != [] && token.value == Blanks(y) && b[..token.value] == y[..token.value] && Holds(b, token.value, Words(y)[0])
    ensures UpToNull(b) == if Words(y) == [] then y else y[..Blanks(y)] + Words(y)[0]
  {
    hide UpToNull, Words;
    if token.None? {
      assert b == y + [0] + [];
      StringReadsBack(y, []);
    } else {
      var i, w := token.value, Words(y)[0];
      WordsHaveNoNull(y);
      EndedAfter(b, y[..i], w);
    }
  }

  lemma EndedAfter(b: seq<Byte>, front: Text, w: Text)
    requires |front| <= |b| && b[..|front|] == front && Holds(b, |front|, w) && NoNull(front) && NoNull(w)
    ensures UpToNull(b) == front + w
  {
    hide UpToNull;
    var i, j := |front|, |front| + |w| + 1;
    assert b == b[..i] + b[i..j] + b[j..];
    assert front + (w + [0]) == front + w + [0];
    StringReadsBack(front + w, b[j..]);
  }

  lemma {:induction false} CroppedWord(x: Text, n: nat)
    requires n <= |x|
    ensures FirstWord(x[..n]) == if |FirstWord(x)| <= n then FirstWord(x) else x[..n]
    decreases n
  {
    if n > 0 && x[0] != SPACE {
      assert x[..n][1..] == x[1..][..n - 1];
      CroppedWord(x[1..], n - 1);
      assert x[..n] == [x[0]] + x[1..][..n - 1];
    }
  }

  /** The program looked for is the one the line's first word names exactly when no space comes first and the word has at
      most 15 characters. */
  lemma NameIsFirstWord(x: Text)
    requires Words(x) != []
    ensures ThreadName(x) == Words(x)[0] <==> x[0] != SPACE && |Words(x)[0]| < NAME_SIZE
  {
    var y := Cropped(x);
    if x[0] == SPACE {
      NoSpaceInWord(x);
      assert ThreadName(x)[0] == SPACE && SPACE in ThreadName(x);
    } else {
      NextWords(x);
      NextWords(y);
      assert Blanks(y) == 0 && y[..0] + Words(y)[0] == FirstWord(y);
      hide FirstWord;
      if |x| >= NAME_SIZE { CroppedWord(x, NAME_SIZE - 1); }
    }
  }

  lemma {:induction false} NoSpaceInWord(x: Text)
    requires Words(x) != []
    ensures SPACE !in Words(x)[0]
    decreases |x|
  {
    if x[0] == SPACE { NoSpaceInWord(x[1..]); }
  }

  /** The line starts the program its first word names, with all its words. */
  predicate Starts(text: Text, loads: Text -> bool)
  {
    && loads(ThreadName(text)) && 0 < |Words(text)| < MAX_ARGC && FitsPage(Words(text))
    && ThreadName(text) == Words(text)[0]
  }

  /** As no directory entry has a name of more than 14 characters, a line whose first word names a program starts it
      exactly when no space comes first and it has at most 31 words that fit the page. */
  lemma StartsExactly(text: Text, loads: Text -> bool)
    requires Words(text) != [] && loads(Words(text)[0]) && forall n :: loads(n) ==> |n| <= Directory.NAME_MAX
    ensures Starts(text, loads) <==> text[0] != SPACE && |Words(text)| < MAX_ARGC && FitsPage(Words(text))
  {
    hide Words, ThreadName, FitsPage;
    NameIsFirstWord(text);
  }

  lemma Held(s: seq<Byte>, at: nat, w: Text)
    requires Holds(s, at, w) && NoNull(w)
    ensures at < |s| && UpToNull(s[at..]) == w
  {
    hide UpToNull;
    var t := s[at + |w| + 1..];
    assert s[at..] == w + [0] + t;
    StringReadsBack(w, t);
  }

  lemma {:induction false} WordsHaveNoNull(x: Text)
    requires NoNull(x)
    ensures forall i :: 0 <= i < |Words(x)| ==> NoNull(Words(x)[i])
    decreases |x|
  {
    if x != [] { if x[0] == SPACE { WordsHaveNoNull(x[1..]); } else { WordsHaveNoNull(x[|FirstWord(x)|..]); } }
  }

  // ---------------------------------------------------------------- lines that start no program, or not the one they name

  const LETTER: Byte := 97

  function Letters(n: nat): (w: Text) { seq(n, _ => LETTER) }

  /** n words of one letter. */
  function ShortWords(n: nat): (x: Text) { if n == 0 then [] else [LETTER, SPACE] + ShortWords(n - 1) }

  lemma {:induction false} WordsOfShortWords(n: nat)
    ensures Words(ShortWords(n)) == seq(n, _ => [LETTER]) && NoNull(ShortWords(n)) && |ShortWords(n)| == 2 * n
  {
    if n > 0 {
      var y := ShortWords(n - 1);
      WordsOfShortWords(n - 1);
      OneShortWord(y);
      assert seq(n, _ => [LETTER]) == [[LETTER]] + seq(n - 1, _ => [LETTER]);
      hide Words, ShortWords;
    }
  }

  lemma OneShortWord(y: Text)
    ensures Words([LETTER, SPACE] + y) == [[LETTER]] + Words(y)
  {
    var x := [LETTER, SPACE] + y;
    assert x[1..] == [SPACE] + y && x[1..][1..] == y;
    assert FirstWord(x[1..]) == [] && FirstWord(x) == [LETTER];
    NextWords(x);
    assert x[2..] == y;
  }

  lemma {:induction false} ShortBytes(args: seq<Text>, i: nat)
    requires i <= |args| && forall k :: 0 <= k < |args| ==> args[k] == [LETTER]
    ensures TextBytes(args, i) == 2 * (|args| - i)
    decreases |args| - i
  {
    if i < |args| { ShortBytes(args, i + 1); }
  }

  /** A line of 64 characters names the program "a" and runs push_args past the end of its array. */
  lemma TooManyWords()
    ensures var x := ShortWords(MAX_ARGC);
      |Words(x)| == MAX_ARGC && TextBytes(Given(Words(x)), 0) <= PGSIZE && ThreadName(x) == Words(x)[0] == [LETTER]
  {
    WordsOfShortWords(MAX_ARGC);
    var x := ShortWords(MAX_ARGC);
    assert Given(Words(x)) == Words(x);
    ShortBytes(Words(x), 0);
    NameIsFirstWord(x);
  }

  lemma {:induction false} OneWord(n: nat)
    ensures FirstWord(Letters(n)) == Letters(n)
  {
    if n > 0 {
      OneWord(n - 1);
      assert Letters(n)[1..] == Letters(n - 1) && Letters(n) == [LETTER] + Letters(n - 1);
    }
  }

  lemma TwoWords(n: nat)
    requires n > 0
    ensures Words([LETTER, SPACE] + Letters(n)) == [[LETTER], Letters(n)]
  {
    var w := Letters(n);
    OneShortWord(w);
    OneWord(n);
    NextWords(w);
    NoWords();
  }

  lemma TooWide(w: Text)
    requires |w| == 4080
    ensures !FitsPage([[LETTER], w])
  {
    var ws := [[LETTER], w];
    assert TextBytes(ws, 2) == 0;
    assert TextBytes(ws, 1) == 4081;
    assert TextBytes(ws, 0) == 4083;
  }

  /** "a" with an argument of 4080 letters leaves no room on the page for the pointers. */
  lemma WordTooLong()
    ensures var x := [LETTER, SPACE] + Letters(4080);
      Words(x) == [[LETTER], Letters(4080)] && !FitsPage(Words(x)) && ThreadName(x) == [LETTER]
  {
    hide Words, FitsPage, ThreadName;
    TwoWords(4080);
    TooWide(Letters(4080));
    NameIsFirstWord([LETTER, SPACE] + Letters(4080));
  }

  /** With a space in front, the program looked for is not the one named. */
  lemma SpaceInFront()
    ensures Words([SPACE, LETTER]) == [[LETTER]] && ThreadName([SPACE, LETTER]) == [SPACE, LETTER]
  {
    var x := [SPACE, LETTER];
    assert x[1..] == [LETTER] && FirstWord([LETTER]) == [LETTER];
    NextWords([LETTER]);
    NoWords();
    assert Words(x) == Words([LETTER]) == [[LETTER]];
    assert Blanks([LETTER]) == 0 && Blanks(x) == 1;
  }

  /** A line of two spaces asks for a program of that name, and if there is one push_args is given a null pointer. */
  lemma BlankLine()
    ensures Words([SPACE, SPACE]) == [] && ThreadName([SPACE, SPACE]) == [SPACE, SPACE] && Directory.NameOk([SPACE, SPACE])
  {
    var x := [SPACE, SPACE];
    assert x[1..] == [SPACE] && [SPACE][1..] == [];
    assert Words([SPACE]) == [];
  }
}
