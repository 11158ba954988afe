/**
  The loops in the PostgreSQL and MySQL drivers that rewrite a query: every
  `?` is replaced, by `$1`, `$2`, ... when the server prepares the statement,
  or by the printed parameters when the driver emulates it. The output buffer
  doubles whenever the next piece might not fit, and the same character is
  then tried again.
*/
module Placeholders {
  import opened Machine
  import opened Wrappers

  const MARK: char := '?'

  // ---------------------------------------------------------------------
  // Specification: cut at the marks, put the texts in between
  // ---------------------------------------------------------------------

  /** The pieces of a query between its marks; always one more than there are marks. */
  function Split(q: string): (pieces: seq<string>)
    ensures |pieces| > 0
  {
    if |q| == 0 then [""]
    else
      var n := |q| - 1;
      var pieces := Split(q[..n]);
      if q[n] == MARK then pieces + [""]
      else pieces[|pieces| - 1 := pieces[|pieces| - 1] + [q[n]]]
  }

  /** pieces[0] + text(first) + pieces[1] + text(first + 1) + ... */
  function Interleave(pieces: seq<string>, text: nat -> string, first: nat): string
    requires |pieces| > 0
  {
    var n := |pieces| - 1;
    if n == 0 then pieces[0]
    else Interleave(pieces[..n], text, first) + text(first + n - 1) + pieces[n]
  }

  /** The query with its marks replaced in order. */
  function Replaced(q: string, text: nat -> string, first: nat): string {
    Interleave(Split(q), text, first)
  }

  function Marks(q: string): nat {
    |Split(q)| - 1
  }

  /** Cutting at the marks loses nothing: putting the marks back restores the query. */
  lemma {:induction false} SplitLosesNothing(q: string)
    ensures Replaced(q, _ => [MARK], 0) == q
    ensures forall p :: p in Split(q) ==> MARK !in p
  {
    if |q| > 0 {
      var n := |q| - 1;
      SplitLosesNothing(q[..n]);
      ReplacedNext(q, n, _ => [MARK], 0);
      assert q == q[..n] + [q[n]];
      assert q[..n + 1] == q;
    }
  }

  /** One more character of the query. */
  lemma ReplacedNext(q: string, i: nat, text: nat -> string, first: nat)
    requires i < |q|
    ensures Marks(q[..i + 1]) == Marks(q[..i]) + (if q[i] == MARK then 1 else 0)
    ensures Replaced(q[..i + 1], text, first) == Replaced(q[..i], text, first) +
      (if q[i] == MARK then text(first + Marks(q[..i])) else [q[i]])
  {
    var pieces := Split(q[..i]);
    assert q[..i + 1][..i] == q[..i];
    if q[i] == MARK {
      assert (pieces + [""])[..|pieces|] == pieces;
    } else {
      LastPieceGrows(pieces, q[i], text, first);
    }
  }

  lemma LastPieceGrows(pieces: seq<string>, c: char, text: nat -> string, first: nat)
    requires |pieces| > 0
    ensures var n := |pieces| - 1;
      Interleave(pieces[n := pieces[n] + [c]], text, first) == Interleave(pieces, text, first) + [c]
  {
    var n := |pieces| - 1;
    var grown := pieces[n := pieces[n] + [c]];
    if n > 0 {
      assert grown[..n] == pieces[..n];
    }
  }

  // ---------------------------------------------------------------------
  // Printing into a buffer
  // ---------------------------------------------------------------------

  function Digits(n: nat): string {
    if n < 10 then ["0123456789"[n]] else Digits(n / 10) + ["0123456789"[n % 10]]
  }

  /** The number that a string of decimal digits stands for. */
  function Value(s: string): int {
    if |s| == 0 then 0 else 10 * Value(s[..|s| - 1]) + (s[|s| - 1] as int - '0' as int)
  }

  /** What is printed for a number stands for it, in digits only and without leading zeros. */
  lemma {:induction false} DigitsReadBack(n: nat)
    ensures Value(Digits(n)) == n && |Digits(n)| > 0
    ensures forall i :: 0 <= i < |Digits(n)| ==> '0' <= Digits(n)[i] <= '9'
    ensures n > 0 ==> Digits(n)[0] != '0'
  {
    var d := n % 10;
    assert "0123456789"[d] as int == '0' as int + d;
    if n < 10 {
      assert Value([]) == 0;
    } else {
      DigitsReadBack(n / 10);
      assert Digits(n)[..|Digits(n)| - 1] == Digits(n / 10);
    }
  }

  /** `snprintf`: at most `room` characters are written, the last one a NUL; the full length is returned. */
  method Snprintf(buf: array<char>, at: nat, room: nat, text: string) returns (n: nat)
    requires at + room <= buf.Length
    modifies buf
    ensures n == |text|
    ensures buf[..at] == old(buf[..at])
    ensures n < room ==> buf[at..at + n] == text && buf[at + n] == NUL
  {
    n := |text|;
    if room > 0 {
      var k := if n < room then n else room - 1;
      forall i | 0 <= i < k {
        buf[at + i] := text[i];
      }
      buf[at + k] := NUL;
    }
  }

  /** `realloc` to a larger size. */
  method Realloc(buf: array<char>, size: nat) returns (r: array<char>)
    requires size >= buf.Length
    ensures fresh(r) && r.Length == size && r[..buf.Length] == buf[..]
  {
    r := new char[size];
    forall i | 0 <= i < buf.Length {
      r[i] := buf[i];
    }
  }

  lemma Prefix(buf: array<char>, j: nat, n: nat)
    requires j + n <= buf.Length
    ensures buf[..j + n] == buf[..j] + buf[j..j + n]
  {
  }

  function Grown(buflen: nat): nat {
    if buflen > 0 then buflen * 2 else 256
  }

  // ---------------------------------------------------------------------
  // The loop
  // ---------------------------------------------------------------------

  /**
    The loop shared by the three rewriters. It returns the buffer, the
    length of its string and the number of the next parameter. The code
    allocates the buffer only inside the loop and then ends the string
    through it, so for an empty query there is none to write to: `buf` is
    null exactly then.
  */
  method Rewrite(query: cstring, text: nat -> string, first: nat) returns (buf: array?<char>, j: nat, vcnt: nat)
    ensures buf == null <==> query == ""
    ensures buf != null ==> fresh(buf) && j < buf.Length && buf[j] == NUL
    ensures buf != null ==> buf[..j] == Replaced(query, text, first)
    ensures vcnt == first + Marks(query)
  {
    if query == "" {
      return null, 0, first;
    }
    var line := new char[0];
    var needRealloc := true;
    j, vcnt := 0, first;
    var i := 0;
    while i < |query|
      invariant 0 <= i <= |query| && fresh(line)
      invariant if i == 0 then j == line.Length == 0 else j < line.Length
      invariant line[..j] == Replaced(query[..i], text, first)
      invariant vcnt == first + Marks(query[..i])
    {
      line, j, vcnt, needRealloc := PutNext(query[i], text, line, j, vcnt, needRealloc);
      ReplacedNext(query, i, text, first);
      i := i + 1;
    }
    assert query[..i] == query;
    line[j] := NUL;
    buf := line;
  }

  /** The buffer is enlarged if the last print failed or only room for the NUL is left. */
  method MakeRoom(buf0: array<char>, j: nat, needRealloc: bool) returns (buf: array<char>)
    requires j == buf0.Length == 0 || j < buf0.Length
    ensures buf == buf0 || fresh(buf)
    ensures j + 1 < buf.Length && buf[..j] == buf0[..j]
    ensures buf.Length == if needRealloc || j + 1 >= buf0.Length then Grown(buf0.Length) else buf0.Length
  {
    buf := buf0;
    if j + 1 >= buf.Length || needRealloc {
      buf := Realloc(buf, Grown(buf.Length));
      assert buf[..j] == buf[..buf0.Length][..j];
    }
  }

  /** Prints a text at `j` if there is room for it and a NUL. */
  method PutText(buf: array<char>, j: nat, text: string) returns (fits: bool)
    requires j < buf.Length
    modifies buf
    ensures fits <==> j + |text| < buf.Length
    ensures buf[..j] == old(buf[..j])
    ensures fits ==> buf[..j + |text|] == old(buf[..j]) + text
  {
    var room := buf.Length - j;
    var n := Snprintf(buf, j, room, text);
    fits := n < room;
    if fits {
      Prefix(buf, j, n);
    }
  }

  method PutChar(buf: array<char>, j: nat, c: char)
    requires j < buf.Length
    modifies buf
    ensures buf[..j + 1] == old(buf[..j]) + [c]
  {
    ghost var prefix := buf[..j];
    buf[j] := c;
    assert buf[..j + 1] == prefix + [c];
  }

  /** One round of the loop: `goto again` until the character or its replacement fits. */
  method PutNext(c: char, text: nat -> string, buf0: array<char>, j0: nat, vcnt0: nat, realloc0: bool)
    returns (buf: array<char>, j: nat, vcnt: nat, needRealloc: bool)
    requires j0 == buf0.Length == 0 || j0 < buf0.Length
    modifies buf0
    ensures buf == buf0 || fresh(buf)
    ensures j < buf.Length && !needRealloc
    ensures buf[..j] == old(buf0[..j0]) + (if c == MARK then text(vcnt0) else [c])
    ensures vcnt == vcnt0 + (if c == MARK then 1 else 0)
  {
    buf, j, vcnt, needRealloc := buf0, j0, vcnt0, realloc0;
    while true
      invariant j == j0 && vcnt == vcnt0 && (buf == buf0 || fresh(buf))
      invariant j == buf.Length == 0 || j < buf.Length
      invariant buf[..j] == old(buf0[..j0])
      decreases j + |text(vcnt)| + 1 - (if needRealloc || j + 1 >= buf.Length then Grown(buf.Length) else buf.Length)
    {
      buf := MakeRoom(buf, j, needRealloc);
      needRealloc := false;
      if c != MARK {
        PutChar(buf, j, c);
        j := j + 1;
        return;
      }
      var fits := PutText(buf, j, text(vcnt));
      if fits {
        j := j + |text(vcnt)|;
        vcnt := vcnt + 1;
        return;
      }
      needRealloc := true;
    }
  }

  // ---------------------------------------------------------------------
  // The three rewriters
  // ---------------------------------------------------------------------

  /** The pieces with the given texts between them. */
  function Woven(pieces: seq<string>, texts: seq<string>): string
    requires |pieces| == |texts| + 1
  {
    var n := |texts|;
    if n == 0 then pieces[0] else Woven(pieces[..n], texts[..n - 1]) + texts[n - 1] + pieces[n]
  }

  lemma {:induction false} InterleaveWoven(pieces: seq<string>, text: nat -> string, first: nat, texts: seq<string>)
    requires |pieces| == |texts| + 1 && forall k :: 0 <= k < |texts| ==> texts[k] == text(first + k)
    ensures Interleave(pieces, text, first) == Woven(pieces, texts)
  {
    var n := |texts|;
    if n > 0 {
      InterleaveWoven(pieces[..n], text, first, texts[..n - 1]);
      assert texts[n - 1] == text(first + n - 1);
    }
  }

  function Numbered(k: nat): string {
    "$" + Digits(k)
  }

  /** `$1` to `$n` */
  function Numbers(n: nat): (texts: seq<string>)
    ensures |texts| == n && forall k :: 0 <= k < n ==> texts[k] == "$" + Digits(k + 1)
  {
    seq(n, k requires 0 <= k < n => "$" + Digits(k + 1))
  }

  /**
    The conversion in `pgsql_drv_prepare`: the k-th mark, counted from one,
    becomes `$k`, and the number of parameters is stored. There is no result
    exactly for an empty query, on which the code writes through null.
  */
  method ConvertPlaceholders(query: cstring) returns (converted: Option<string>, nparams: nat)
    ensures converted == if query == "" then None else Some(Woven(Split(query), Numbers(Marks(query))))
    ensures nparams == |Split(query)| - 1
  {
    InterleaveWoven(Split(query), Numbered, 1, Numbers(Marks(query)));
    var buf, j, vcnt := Rewrite(query, Numbered, 1);
    converted := if buf == null then None else Some(buf[..j]);
    nparams := vcnt - 1;
  }

  function Bound(params: seq<string>): nat -> string {
    k => if 0 <= k < |params| then params[k] else ""
  }

  /**
    The emulation in `pgsql_drv_execute` and `mysql_drv_execute`: the k-th
    mark becomes the k-th bound parameter as `db_print_value` prints it. The
    code does not compare the two counts: there is no result exactly for an
    empty query or one with more marks than parameters, where it reads past
    the bound ones.
  */
  method EmulateStatement(query: cstring, params: seq<string>) returns (sent: Option<string>)
    ensures sent ==
      if query == "" || Marks(query) > |params| then None
      else Some(Woven(Split(query), params[..Marks(query)]))
  {
    if Marks(query) <= |params| {
      InterleaveWoven(Split(query), Bound(params), 0, params[..Marks(query)]);
    }
    var buf, j, vcnt := Rewrite(query, Bound(params), 0);
    sent := if buf == null || vcnt > |params| then None else Some(buf[..j]);
  }

  /** A query without marks is sent as it is. */
  lemma {:induction false} NoMarks(q: string, text: nat -> string, first: nat)
    requires MARK !in q
    ensures Marks(q) == 0 && Replaced(q, text, first) == q
  {
    if |q| > 0 {
      var n := |q| - 1;
      NoMarks(q[..n], text, first);
      ReplacedNext(q, n, text, first);
      assert q[..n + 1] == q;
    }
  }

  /** Rewriting one part after the other, the numbering going on, is rewriting the whole. */
  lemma {:induction false} ReplacedConcat(p: string, q: string, text: nat -> string, first: nat)
    ensures Marks(p + q) == Marks(p) + Marks(q)
    ensures Replaced(p + q, text, first) == Replaced(p, text, first) + Replaced(q, text, first + Marks(p))
  {
    if |q| == 0 {
      assert p + q == p;
    } else {
      var n := |q| - 1;
      var init, c := q[..n], q[n];
      assert p + q == (p + init) + [c] && q == init + [c];
      ReplacedConcat(p, init, text, first);
      ReplacedLast(p + init, c, text, first);
      ReplacedLast(init, c, text, first + Marks(p));
      Associate(Replaced(p, text, first), Replaced(init, text, first + Marks(p)),
                if c == MARK then text(first + Marks(p) + Marks(init)) else [c]);
    }
  }

  lemma Associate(a: string, b: string, c: string)
    ensures (a + b) + c == a + (b + c)
  {
  }

  lemma ReplacedLast(q: string, c: char, text: nat -> string, first: nat)
    ensures Marks(q + [c]) == Marks(q) + (if c == MARK then 1 else 0)
    ensures Replaced(q + [c], text, first) ==
      Replaced(q, text, first) + (if c == MARK then text(first + Marks(q)) else [c])
  {
    var longer := q + [c];
    assert longer[..|q|] == q && longer[..|q| + 1] == longer;
    ReplacedNext(longer, |q|, text, first);
  }
}
