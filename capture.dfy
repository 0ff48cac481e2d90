/** The two string helpers of the OBJ importer: splitting a face line into its
    three vertex tokens (captureFaces) and reading the `p/t/n` indices of one
    token (captureVertex), together with the pieces of std::string and sscanf
    they rely on. */
module Capture {

  datatype Option<T> = None | Some(value: T)

  /** std::string::npos, the largest value of a 64-bit size_t. */
  const NPOS: nat := 0xFFFF_FFFF_FFFF_FFFF
  /** size_t arithmetic is modulo 2^64. */
  const SIZE_T_MOD: nat := 0x1_0000_0000_0000_0000
  /** The largest value of a 32-bit unsigned int. */
  const UINT_MAX: nat := 0xFFFF_FFFF

  /** The size_t sum `p + 1`: NPOS + 1 wraps around to 0. */
  function SizeTSucc(p: nat): (r: nat)
    requires p < SIZE_T_MOD
  {
    if p == NPOS then 0 else p + 1
  }

  /** The size_t difference `next - prev - 1`: a negative value wraps around
      to a large one. */
  function SizeTGap(next: nat, prev: nat): (r: nat)
    requires next < SIZE_T_MOD && prev < SIZE_T_MOD
  {
    if next < prev + 1 then next - prev - 1 + SIZE_T_MOD else next - prev - 1
  }

  /** Both are arithmetic modulo 2^64, with the result in range. */
  lemma SizeTIsModular(p: nat, next: nat)
    requires p < SIZE_T_MOD && next < SIZE_T_MOD
    ensures SizeTSucc(p) < SIZE_T_MOD && SizeTSucc(p) == (p + 1) % SIZE_T_MOD
    ensures SizeTGap(next, p) < SIZE_T_MOD && SizeTGap(next, p) == (next - p - 1) % SIZE_T_MOD
  {
    if p == NPOS {
      assert (p + 1) / SIZE_T_MOD == 1;
    }
    if next < p + 1 {
      assert (next - p - 1) / SIZE_T_MOD == -1;
    }
  }

  /** std::string::find(c, from): the first position at or after `from` that
      holds `c`, or NPOS when there is none. */
  function Find(s: string, c: char, from: nat): (r: nat)
    requires |s| < NPOS
    ensures r == NPOS || (from <= r < |s| && s[r] == c)
    decreases |s| - from
  {
    if from >= |s| then NPOS
    else if s[from] == c then from
    else Find(s, c, from + 1)
  }

  /** Find returns the first occurrence: there is no `c` between `from` and
      the position it returns (or the end, when it returns NPOS). */
  lemma {:induction false} FindFirst(s: string, c: char, from: nat)
    requires |s| < NPOS
    ensures forall j | from <= j < |s| && (Find(s, c, from) == NPOS || j < Find(s, c, from)) :: s[j] != c
    decreases |s| - from
  {
    if from < |s| && s[from] != c {
      FindFirst(s, c, from + 1);
    }
  }

  /** std::string::substr(pos, count): at most `count` characters starting at
      `pos`; the count is cut at the end of the string. (A `pos` beyond the end
      throws std::out_of_range; the only caller never passes one.) */
  function Substr(s: string, pos: nat, count: nat): (r: string)
    requires pos <= |s|
    ensures |r| <= count && pos + |r| <= |s| && r == s[pos..pos + |r|]
    ensures |r| < count ==> pos + |r| == |s|
  {
    if count < |s| - pos then s[pos..pos + count] else s[pos..]
  }

  /** The text of the fields separated by single spaces, in order. */
  function Join(fields: seq<string>): string
    requires |fields| >= 1
  {
    if |fields| == 1 then fields[0] else fields[0] + " " + Join(fields[1..])
  }

  /** Cutting a string at every space, keeping empty fields (SplitJoin says
      what the fields are). */
  function Split(s: string): (r: seq<string>)
    ensures |r| >= 1
  {
    if s == [] then [[]]
    else
      var rest := Split(s[1..]);
      if s[0] == ' ' then [[]] + rest
      else [[s[0]] + rest[0]] + rest[1..]
  }

  /** The fields of Split hold no space. */
  lemma {:induction false} SplitFieldsSpaceFree(s: string)
    ensures forall k | 0 <= k < |Split(s)| :: ' ' !in Split(s)[k]
  {
    if s != [] {
      SplitFieldsSpaceFree(s[1..]);
      var rest := Split(s[1..]);
      if s[0] != ' ' {
        assert ' ' !in [s[0]] + rest[0];
        assert forall k | 1 <= k < |Split(s)| :: Split(s)[k] == rest[k];
      } else {
        assert forall k | 1 <= k < |Split(s)| :: Split(s)[k] == rest[k - 1];
      }
    }
  }

  /** Joined with single spaces, the fields of Split give back the string. */
  lemma {:induction false} SplitJoin(s: string)
    ensures Join(Split(s)) == s
  {
    if s != [] {
      var rest := Split(s[1..]);
      SplitJoin(s[1..]);
      if s[0] != ' ' {
        JoinCons(s[0], rest);
      } else {
        JoinSpace(rest);
      }
      assert s == [s[0]] + s[1..];
    }
  }

  /** A character in front of the first field is in front of the text. */
  lemma JoinCons(c: char, fields: seq<string>)
    requires |fields| >= 1
    ensures Join([[c] + fields[0]] + fields[1..]) == [c] + Join(fields)
  {
    var g := [[c] + fields[0]] + fields[1..];
    assert g[0] == [c] + fields[0];
    if |fields| > 1 {
      assert g[1..] == fields[1..];
      var j := Join(fields[1..]);
      assert Join(g) == [c] + fields[0] + " " + j;
      assert Join(fields) == fields[0] + " " + j;
      AppendAssoc3([c], fields[0], " ", j);
    }
  }

  lemma AppendAssoc3<T>(a: seq<T>, b: seq<T>, c: seq<T>, d: seq<T>)
    ensures a + b + c + d == a + (b + c + d)
  {
  }

  /** An empty first field is a leading space. */
  lemma JoinSpace(fields: seq<string>)
    requires |fields| >= 1
    ensures Join([[]] + fields) == " " + Join(fields)
  {
    assert ([[]] + fields)[1..] == fields;
  }

  lemma {:induction false} SplitSpaceFree(s: string)
    requires ' ' !in s
    ensures Split(s) == [s]
  {
    if s != [] {
      assert ' ' !in s[1..] by {
        forall k | 0 <= k < |s[1..]| ensures s[1..][k] != ' ' {
          assert s[1..][k] == s[k + 1];
        }
      }
      SplitSpaceFree(s[1..]);
      assert s == [s[0]] + s[1..];
    }
  }

  /** Split, one leading character at a time. */
  lemma SplitCons(c: char, t: string)
    ensures Split([c] + t) == if c == ' ' then [[]] + Split(t) else [[c] + Split(t)[0]] + Split(t)[1..]
  {
    assert ([c] + t)[0] == c && ([c] + t)[1..] == t;
  }

  /** A space in the middle joins the fields of its two sides. */
  lemma {:induction false} SplitAppendSep(x: string, y: string)
    ensures Split(x + " " + y) == Split(x) + Split(y)
    decreases |x|
  {
    if x == [] {
      assert x + " " + y == [' '] + y;
      SplitCons(' ', y);
      assert Split(x) == [[]];
    } else {
      var c, t := x[0], x[1..];
      assert x == [c] + t;
      assert x + " " + y == [c] + (t + " " + y);
      SplitAppendSep(t, y);
      SplitAppendSepCons(c, t, y);
    }
  }

  /** The inductive step of SplitAppendSep: one more leading character. */
  lemma SplitAppendSepCons(c: char, t: string, y: string)
    requires Split(t + " " + y) == Split(t) + Split(y)
    ensures Split([c] + (t + " " + y)) == Split([c] + t) + Split(y)
  {
    SplitCons(c, t);
    SplitCons(c, t + " " + y);
    ConsOnFields(c, Split(t), Split(y));
  }

  /** The step of SplitCons, applied to a field list with more fields after it. */
  lemma ConsOnFields(c: char, r: seq<string>, sy: seq<string>)
    requires |r| >= 1
    ensures (if c == ' ' then [[]] + (r + sy) else [[c] + (r + sy)[0]] + (r + sy)[1..])
         == (if c == ' ' then [[]] + r else [[c] + r[0]] + r[1..]) + sy
  {
    if c != ' ' {
      assert (r + sy)[0] == r[0];
      assert (r + sy)[1..] == r[1..] + sy;
    }
  }

  /** Which field of `s` starts at position `start` (just after a space, or 0). */
  ghost function FieldIndex(s: string, start: nat): nat
    requires start <= |s|
  {
    |Split(s[..start])| - 1
  }

  /** The fields from a field boundary on are the fields of the remaining text. */
  lemma SplitAt(s: string, start: nat)
    requires start <= |s|
    requires start == 0 || s[start - 1] == ' '
    ensures FieldIndex(s, start) < |Split(s)|
    ensures Split(s)[FieldIndex(s, start)..] == Split(s[start..])
  {
    if start > 0 {
      var x, y := s[..start - 1], s[start..];
      SplitAfterSpace(s, x, y);
      DropAppend(Split(x), Split(y));
    } else {
      assert s[..0] == [];
      assert s[0..] == s;
    }
  }

  /** A text cut at one of its spaces: the fields of the two sides, and the
      prefix up to the space ends in an empty field. */
  lemma SplitAfterSpace(s: string, x: string, y: string)
    requires |x| < |s| && x == s[..|x|] && s[|x|] == ' ' && y == s[|x| + 1..]
    ensures Split(s) == Split(x) + Split(y)
    ensures Split(s[..|x| + 1]) == Split(x) + [[]]
  {
    assert s == x + " " + y;
    assert s[..|x| + 1] == x + " " + [];
    SplitAppendSep(x, y);
    SplitAppendSep(x, []);
  }

  lemma DropAppend<T>(a: seq<T>, b: seq<T>)
    ensures (a + b)[|a|..] == b
  {
  }

  /** The field that starts at a boundary and meets no further space is the
      last field, running to the end of the text. */
  lemma LastField(s: string, start: nat)
    requires start <= |s|
    requires start == 0 || s[start - 1] == ' '
    requires ' ' !in s[start..]
    ensures FieldIndex(s, start) == |Split(s)| - 1
    ensures Split(s)[FieldIndex(s, start)] == s[start..]
  {
    SplitAt(s, start);
    SplitSpaceFree(s[start..]);
  }

  /** Passing over a space-free run and then one space moves on by one field. */
  lemma FieldIndexPastSpace(s: string, start: nat, next: nat)
    requires start <= next < |s|
    requires start == 0 || s[start - 1] == ' '
    requires s[next] == ' ' && ' ' !in s[start..next]
    ensures FieldIndex(s, next + 1) == FieldIndex(s, start) + 1
  {
    var w := s[start..next];
    assert s[..next + 1] == s[..next] + " " + [];
    SplitAppendSep(s[..next], []);
    SplitSpaceFree(w);
    if start == 0 {
      assert s[..next] == w;
      assert s[..0] == [];
    } else {
      var x := s[..start - 1];
      assert s[..start] == x + " " + [];
      assert s[..next] == x + " " + w;
      SplitAppendSep(x, []);
      SplitAppendSep(x, w);
    }
  }

  /** The field that starts at a boundary and stops at the space `next`; the
      field after it starts just past that space. */
  lemma FieldBeforeSpace(s: string, start: nat, next: nat)
    requires start <= next < |s|
    requires start == 0 || s[start - 1] == ' '
    requires s[next] == ' ' && ' ' !in s[start..next]
    ensures FieldIndex(s, start) + 1 < |Split(s)|
    ensures Split(s)[FieldIndex(s, start)] == s[start..next]
    ensures FieldIndex(s, next + 1) == FieldIndex(s, start) + 1
  {
    var t := s[start..];
    var k := next - start;
    SplitAt(s, start);
    assert t[..k] == s[start..next] && t[k] == s[next];
    FirstField(t, k);
    DropHead(Split(s), FieldIndex(s, start), Split(t));
    FieldIndexPastSpace(s, start, next);
  }

  lemma DropHead<T>(a: seq<T>, i: nat, b: seq<T>)
    requires i <= |a| && a[i..] == b && |b| >= 2
    ensures i + 1 < |a| && a[i] == b[0]
  {
    assert a[i..][0] == a[i];
  }

  /** The first field of a text that holds a space is everything before that
      space, and more fields follow it. */
  lemma FirstField(t: string, k: nat)
    requires k < |t| && t[k] == ' ' && ' ' !in t[..k]
    ensures |Split(t)| >= 2 && Split(t)[0] == t[..k]
  {
    assert t == t[..k] + " " + t[k + 1..];
    SplitAppendSep(t[..k], t[k + 1..]);
    SplitSpaceFree(t[..k]);
  }

  /** One turn of the captureFaces loop: from the separator `prev` (a space, or
      NPOS standing before the start of the line) it reads the next field, and
      the separator it stops at starts the field after it, cyclically. */
  lemma NextField(s: string, prev: nat)
    requires |s| < NPOS
    requires prev == NPOS || (prev < |s| && s[prev] == ' ')
    ensures SizeTSucc(prev) == if prev == NPOS then 0 else prev + 1
    ensures FieldIndex(s, SizeTSucc(prev)) < |Split(s)|
    ensures
      var start := SizeTSucc(prev);
      var next := Find(s, ' ', start);
      && Substr(s, start, SizeTGap(next, prev)) == Split(s)[FieldIndex(s, start)]
      && (next == NPOS || (next < |s| && s[next] == ' '))
      && SizeTSucc(next) == (if next == NPOS then 0 else next + 1)
      && FieldIndex(s, SizeTSucc(next)) == CycleNext(FieldIndex(s, start), |Split(s)|)
  {
    var start := SizeTSucc(prev);
    var next := Find(s, ' ', start);
    if next == NPOS {
      LastTurn(s, prev, start, next);
    } else {
      SpaceTurn(s, prev, start, next);
    }
  }

  /** NextField when no space follows: the last field, and back to field 0. */
  lemma LastTurn(s: string, prev: nat, start: nat, next: nat)
    requires |s| < NPOS
    requires prev == NPOS || prev < |s|
    requires start == if prev == NPOS then 0 else prev + 1
    requires start == 0 || s[start - 1] == ' '
    requires next == Find(s, ' ', start) == NPOS
    ensures FieldIndex(s, start) < |Split(s)|
    ensures Substr(s, start, SizeTGap(next, prev)) == Split(s)[FieldIndex(s, start)]
    ensures SizeTSucc(next) == 0
    ensures FieldIndex(s, SizeTSucc(next)) == CycleNext(FieldIndex(s, start), |Split(s)|)
  {
    FindFirst(s, ' ', start);
    assert SizeTGap(next, prev) >= |s| - start;
    assert ' ' !in s[start..] by {
      forall j | 0 <= j < |s| - start ensures s[start..][j] != ' ' {
        assert s[start..][j] == s[start + j];
      }
    }
    LastField(s, start);
    assert s[..0] == [];
  }

  /** NextField when a space follows at `next`: the field up to it, and on to
      the next field. */
  lemma SpaceTurn(s: string, prev: nat, start: nat, next: nat)
    requires |s| < NPOS
    requires prev == NPOS || prev < |s|
    requires start == if prev == NPOS then 0 else prev + 1
    requires start == 0 || s[start - 1] == ' '
    requires next == Find(s, ' ', start) != NPOS
    ensures start <= next < |s| && s[next] == ' '
    ensures FieldIndex(s, start) < |Split(s)|
    ensures Substr(s, start, SizeTGap(next, prev)) == Split(s)[FieldIndex(s, start)]
    ensures FieldIndex(s, SizeTSucc(next)) == CycleNext(FieldIndex(s, start), |Split(s)|)
  {
    FindFirst(s, ' ', start);
    assert SizeTGap(next, prev) == next - start;
    assert SizeTSucc(next) == next + 1;
    assert ' ' !in s[start..next] by {
      forall j | 0 <= j < next - start ensures s[start..next][j] != ' ' {
        assert s[start..next][j] == s[start + j];
      }
    }
    FieldBeforeSpace(s, start, next);
  }

  /** The three tokens captureFaces reads: the fields after the first,
      counted cyclically, because a missing space makes find return NPOS and
      NPOS + 1 wraps to the start of the line. On a well-formed face line these
      are the three vertex tokens (FaceFieldsOfFaceLine). */
  function FaceFields(line: string): (r: seq<string>)
    ensures |r| == 3
  {
    var f := Split(line);
    [f[1 % |f|], f[2 % |f|], f[3 % |f|]]
  }

  /** util::captureFaces: three times, read from just after the previous space
      up to the next one (or to the end of the line). */
  method CaptureFaces(str: string) returns (faces: seq<string>)
    requires |str| < NPOS
    ensures faces == FaceFields(str)
  {
    // the field each turn reads, and the one after the last turn
    ghost var turn := Turns(|Split(str)|);
    faces := ["", "", ""];
    var prev: nat := Find(str, ' ', 0);
    var next: nat := prev;
    FirstTurn(str, turn, faces);
    for k := 0 to 3
      invariant Turned(str, turn, k, prev, faces)
    {
      NextTurn(str, turn, k, prev, faces);
      next := Find(str, ' ', SizeTSucc(prev));
      faces := faces[k := Substr(str, SizeTSucc(prev), SizeTGap(next, prev))];
      prev := next;
    }
    LastTurnRead(str, turn, prev, faces);
  }

  /** The state of captureFaces after k turns: `prev` is the separator the
      next turn starts after, that turn reads field turn[k], and the faces read
      so far are the fields turn[0], ..., turn[k - 1]. */
  ghost predicate Turned(s: string, turn: seq<nat>, k: nat, prev: nat, faces: seq<string>)
  {
    && |s| < NPOS && |turn| == 4 && k <= 3 && |faces| == 3
    && (prev == NPOS || (prev < |s| && s[prev] == ' '))
    && FieldIndex(s, SizeTSucc(prev)) == turn[k]
    && forall j | 0 <= j < k :: turn[j] < |Split(s)| && faces[j] == Split(s)[turn[j]]
  }

  /** Before the loop: the first separator is the first space (or NPOS when
      there is none), and the first turn reads field 1, cyclically. */
  lemma FirstTurn(s: string, turn: seq<nat>, faces: seq<string>)
    requires |s| < NPOS && |faces| == 3
    requires turn == Turns(|Split(s)|)
    ensures Turned(s, turn, 0, Find(s, ' ', 0), faces)
  {
    NextField(s, NPOS);
  }

  /** One turn of the loop keeps Turned, one field further. */
  lemma NextTurn(s: string, turn: seq<nat>, k: nat, prev: nat, faces: seq<string>)
    requires Turned(s, turn, k, prev, faces) && k < 3
    requires turn == Turns(|Split(s)|)
    ensures SizeTSucc(prev) <= |s|
    ensures
      var next := Find(s, ' ', SizeTSucc(prev));
      Turned(s, turn, k + 1, next, faces[k := Substr(s, SizeTSucc(prev), SizeTGap(next, prev))])
  {
    NextField(s, prev);
    var fields := Split(s);
    var start := SizeTSucc(prev);
    var next := Find(s, ' ', start);
    var face := Substr(s, start, SizeTGap(next, prev));
    assert turn[k] < |fields| && face == fields[turn[k]];
    assert FieldIndex(s, SizeTSucc(next)) == turn[k + 1];
    var faces' := faces[k := face];
    forall j | 0 <= j < k + 1
      ensures turn[j] < |fields| && faces'[j] == fields[turn[j]]
    {
      if j < k {
        assert faces'[j] == faces[j];
      }
    }
  }

  /** After three turns the faces are the fields FaceFields names. */
  lemma LastTurnRead(s: string, turn: seq<nat>, prev: nat, faces: seq<string>)
    requires Turned(s, turn, 3, prev, faces)
    requires turn == Turns(|Split(s)|)
    ensures faces == FaceFields(s)
  {
    var fields := Split(s);
    assert faces == [fields[turn[0]], fields[turn[1]], fields[turn[2]]];
    assert turn[0] == 1 % |fields| && turn[1] == 2 % |fields| && turn[2] == 3 % |fields| by {
      assert turn[..3][0] == turn[0];
      assert turn[..3][1] == turn[1];
      assert turn[..3][2] == turn[2];
    }
  }

  /** The field indices the four separators of captureFaces start at: the
      fields after the first, counted cyclically among n fields. */
  ghost function Turns(n: nat): (turn: seq<nat>)
    requires n > 0
    ensures |turn| == 4 && turn[0] == CycleNext(0, n)
    ensures forall k | 0 <= k < 3 :: turn[k + 1] == CycleNext(turn[k], n)
    ensures turn[..3] == [1 % n, 2 % n, 3 % n]
  {
    CycleNextMod(0, n);
    CycleNextMod(1, n);
    CycleNextMod(2, n);
    CycleNextMod(3, n);
    assert 0 % n == 0;
    [1 % n, 2 % n, 3 % n, 4 % n]
  }

  /** The field after field i of n fields, counting cyclically. */
  function CycleNext(i: nat, n: nat): nat
  {
    if i + 1 == n then 0 else i + 1
  }

  lemma ModSmall(a: nat, n: nat)
    requires a < n
    ensures a % n == a
  {
  }

  /** Counting on cyclically from field (a % n) reaches field ((a + 1) % n), over
      the three turns of the loop. */
  lemma CycleNextMod(a: nat, n: nat)
    requires 0 < n && a < 4
    ensures CycleNext(a % n, n) == (a + 1) % n
  {
    if n > 3 {
      ModSmall(a, n);
      if a + 1 < n {
        ModSmall(a + 1, n);
      } else {
        assert n % n == 0;
      }
    }
  }

  /** A face line "f a b c" with space-free tokens yields exactly a, b and c;
      the third token runs to the end of the line. */
  lemma FaceFieldsOfFaceLine(head: string, a: string, b: string, c: string)
    requires ' ' !in head && ' ' !in a && ' ' !in b && ' ' !in c
    ensures FaceFields(head + " " + a + " " + b + " " + c) == [a, b, c]
  {
    var line := head + " " + a + " " + b + " " + c;
    SplitAppendSep(head + " " + a + " " + b, c);
    SplitAppendSep(head + " " + a, b);
    SplitAppendSep(head, a);
    SplitSpaceFree(head);
    SplitSpaceFree(a);
    SplitSpaceFree(b);
    SplitSpaceFree(c);
    assert Split(line) == [head, a, b, c];
  }

  // ---------------------------------------------------------------------
  // captureVertex: sscanf(str, "%u/%u/%u", ...)

  /** The `p/t/n` indices of a face vertex token, 1-based as in the file. */
  datatype VertexRef = VertexRef(p: nat, t: nat, n: nat)

  predicate IsDigit(c: char) { '0' <= c <= '9' }

  /** The characters sscanf skips before a numeric conversion (isspace). */
  predicate IsSpace(c: char) { c == ' ' || '\t' <= c <= '\r' }

  /** Reads the longest run of decimal digits at the front of `s`, adding each
      onto the running value `acc`; returns the value and the unread rest. */
  function ScanDigits(s: string, acc: nat): (nat, string)
  {
    if s != [] && IsDigit(s[0]) then ScanDigits(s[1..], acc * 10 + (s[0] as int - '0' as int))
    else (acc, s)
  }

  /** ScanDigits consumes a prefix of digits and stops at the first
      non-digit; the value only grows. */
  lemma {:induction false} ScanDigitsStops(s: string, acc: nat)
    ensures var (v, rest) := ScanDigits(s, acc);
      && |rest| <= |s| && rest == s[|s| - |rest|..]
      && (rest == [] || !IsDigit(rest[0]))
      && AllDigits(s[..|s| - |rest|])
      && acc <= v
    decreases |s|
  {
    if s != [] && IsDigit(s[0]) {
      var acc' := acc * 10 + (s[0] as int - '0' as int);
      ScanDigitsStops(s[1..], acc');
      var rest := ScanDigits(s, acc).1;
      assert s[1..][|s[1..]| - |rest|..] == s[|s| - |rest|..];
      assert s[..|s| - |rest|] == [s[0]] + s[1..][..|s[1..]| - |rest|];
    } else {
      assert s[..0] == [];
    }
  }

  /** One `%u` conversion: white space, an optional '+', then at least one
      digit. None when nothing matches, and also for a '-' sign or a value
      beyond UINT_MAX, whose results this model leaves undefined. */
  function ScanUnsigned(s: string): (r: Option<(nat, string)>)
    ensures r.Some? ==> r.value.0 <= UINT_MAX
  {
    if s != [] && IsSpace(s[0]) then ScanUnsigned(s[1..])
    else if s != [] && s[0] == '+' then ScanNumber(s[1..])
    else ScanNumber(s)
  }

  /** The digits of one `%u` conversion, after the white space and the sign. */
  function ScanNumber(d: string): (r: Option<(nat, string)>)
    ensures r.Some? ==> r.value.0 <= UINT_MAX
  {
    if d == [] || !IsDigit(d[0]) then None
    else
      var vr := ScanDigits(d, 0);
      if vr.0 > UINT_MAX then None else Some(vr)
  }

  /** A successful `%u` conversion consumes a non-empty prefix of the text and
      stops at the first character that is not a digit. */
  lemma {:induction false} ScanUnsignedStops(s: string)
    ensures var r := ScanUnsigned(s);
      r.Some? ==>
        && |r.value.1| < |s| && r.value.1 == s[|s| - |r.value.1|..]
        && (r.value.1 == [] || !IsDigit(r.value.1[0]))
    decreases |s|
  {
    if s != [] && IsSpace(s[0]) {
      ScanUnsignedStops(s[1..]);
      var r := ScanUnsigned(s[1..]);
      if r.Some? {
        assert s[1..][|s[1..]| - |r.value.1|..] == s[|s| - |r.value.1|..];
      }
    } else {
      var d := if s != [] && s[0] == '+' then s[1..] else s;
      if d != [] && IsDigit(d[0]) {
        ScanDigitsStops(d, 0);
        var rest := ScanDigits(d, 0).1;
        if d != s {
          assert s[1..][|s[1..]| - |rest|..] == s[|s| - |rest|..];
        }
      }
    }
  }

  /** The literal '/' of the format followed by the next `%u` conversion. */
  function SlashThenUnsigned(s: string): (r: Option<(nat, string)>)
    ensures r.Some? ==> r.value.0 <= UINT_MAX
  {
    if s != [] && s[0] == '/' then ScanUnsigned(s[1..]) else None
  }

  /** util::captureVertex. None means sscanf stored fewer than three values,
      so the array it returns holds indeterminate values. Text after the third
      number is ignored, as sscanf ignores it. */
  function CaptureVertex(s: string): (r: Option<VertexRef>)
    ensures r.Some? ==> r.value.p <= UINT_MAX && r.value.t <= UINT_MAX && r.value.n <= UINT_MAX
  {
    var first := ScanUnsigned(s);
    if first.None? then None
    else
      var second := SlashThenUnsigned(first.value.1);
      if second.None? then None
      else
        var third := SlashThenUnsigned(second.value.1);
        if third.None? then None
        else Some(VertexRef(first.value.0, second.value.0, third.value.0))
  }

  /** The decimal text of n, without leading zeros (what an OBJ exporter writes). */
  function Show(n: nat): (r: string)
    ensures |r| >= 1 && forall k | 0 <= k < |r| :: IsDigit(r[k])
  {
    if n < 10 then [('0' as int + n) as char]
    else Show(n / 10) + [('0' as int + n % 10) as char]
  }

  predicate AllDigits(s: string)
  {
    forall k | 0 <= k < |s| :: IsDigit(s[k])
  }

  /** Scanning runs of digits one after the other: the value read from the
      first run is where the second starts accumulating. */
  lemma {:induction false} ScanDigitsAppend(ds: string, rest: string, acc: nat)
    requires AllDigits(ds)
    ensures ScanDigits(ds + rest, acc) == ScanDigits(rest, ScanDigits(ds, acc).0)
    decreases |ds|
  {
    if ds != [] {
      assert (ds + rest)[0] == ds[0];
      assert (ds + rest)[1..] == ds[1..] + rest;
      ScanDigitsAppend(ds[1..], rest, acc * 10 + (ds[0] as int - '0' as int));
    } else {
      assert ds + rest == rest;
    }
  }

  /** One more digit at the end multiplies the value read so far by ten and
      adds the digit. */
  lemma {:induction false} ScanDigitsSnoc(ds: string, c: char, acc: nat)
    requires AllDigits(ds) && IsDigit(c)
    ensures ScanDigits(ds + [c], acc).0 == ScanDigits(ds, acc).0 * 10 + (c as int - '0' as int)
    decreases |ds|
  {
    ScanDigitsAppend(ds, [c], acc);
    assert ScanDigits([c], ScanDigits(ds, acc).0) == ScanDigits([], ScanDigits(ds, acc).0 * 10 + (c as int - '0' as int));
  }

  /** Scanning the decimal text of n reads exactly n. */
  lemma {:induction false} ScanDigitsShow(n: nat)
    ensures ScanDigits(Show(n), 0).0 == n
    decreases n
  {
    var c := ('0' as int + n % 10) as char;
    assert c as int - '0' as int == n % 10;
    if n < 10 {
      assert ScanDigits([c], 0) == ScanDigits([], n);
    } else {
      ScanDigitsShow(n / 10);
      ScanDigitsSnoc(Show(n / 10), c, 0);
    }
  }

  lemma ScanUnsignedShow(n: nat, rest: string)
    requires n <= UINT_MAX
    requires rest == [] || !IsDigit(rest[0])
    ensures ScanUnsigned(Show(n) + rest) == Some((n, rest))
  {
    var s := Show(n) + rest;
    assert s[0] == Show(n)[0];
    assert IsDigit(s[0]) && !IsSpace(s[0]);
    ScanDigitsAppend(Show(n), rest, 0);
    ScanDigitsShow(n);
    assert ScanDigits(s, 0) == ScanDigits(rest, n) == (n, rest);
  }

  lemma Regroup(a: string, b: string, c: string, rest: string)
    ensures a + "/" + b + "/" + c + rest == a + ("/" + (b + ("/" + (c + rest))))
  {
  }

  /** captureVertex reads back the three indices of a token "p/t/n" written in
      decimal, whatever non-digit text follows it (such as a '\r'). */
  lemma CaptureVertexRoundTrip(p: nat, t: nat, n: nat, rest: string)
    requires p <= UINT_MAX && t <= UINT_MAX && n <= UINT_MAX
    requires rest == [] || !IsDigit(rest[0])
    ensures CaptureVertex(Show(p) + "/" + Show(t) + "/" + Show(n) + rest) == Some(VertexRef(p, t, n))
  {
    var tail3 := Show(n) + rest;
    var tail2 := Show(t) + ("/" + tail3);
    var s := Show(p) + ("/" + tail2);
    Regroup(Show(p), Show(t), Show(n), rest);
    ScanUnsignedShow(p, "/" + tail2);
    assert ("/" + tail2)[1..] == tail2;
    ScanUnsignedShow(t, "/" + tail3);
    assert ("/" + tail3)[1..] == tail3;
    ScanUnsignedShow(n, rest);
    ThreeScans(s, p, "/" + tail2, t, "/" + tail3, n, rest);
  }

  /** CaptureVertex succeeds when its three conversions and two slashes do. */
  lemma ThreeScans(s: string, p: nat, r1: string, t: nat, r2: string, n: nat, r3: string)
    requires ScanUnsigned(s) == Some((p, r1)) && r1 != [] && r1[0] == '/'
    requires ScanUnsigned(r1[1..]) == Some((t, r2)) && r2 != [] && r2[0] == '/'
    requires ScanUnsigned(r2[1..]) == Some((n, r3))
    ensures CaptureVertex(s) == Some(VertexRef(p, t, n))
  {
    assert SlashThenUnsigned(r1) == Some((t, r2));
    assert SlashThenUnsigned(r2) == Some((n, r3));
  }

  /** A leading zero does not change the indices captureVertex reads,
      though it changes the token text ("01/1/1" and "1/1/1"). */
  lemma LeadingZeroSameRef(tok: string)
    requires tok != [] && IsDigit(tok[0])
    ensures "0" + tok != tok
    ensures CaptureVertex("0" + tok) == CaptureVertex(tok)
  {
    var s := "0" + tok;
    assert |s| == |tok| + 1;
    assert !IsSpace(s[0]) && s[0] != '+' && IsDigit(s[0]);
    assert !IsSpace(tok[0]) && tok[0] != '+';
    assert s[1..] == tok;
    assert ScanDigits(s, 0) == ScanDigits(tok, 0);
    assert ScanUnsigned(s) == ScanUnsigned(tok);
  }
}
