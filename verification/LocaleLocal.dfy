/**
 The ends of quotes and units depend on nothing behind them and nothing in front of where they start: a stretch
 of bytes has the same units wherever it stands (src/locale.rs).
 */
module LocaleLocal {
  import opened Utf8
  import opened Wrappers
  import opened LocaleUnits

  /** The `n` bytes of `a` from `i` on are those of `b` from `j` on. */
  predicate Same(a: Bytes, i: nat, b: Bytes, j: nat, n: nat) {
    i + n <= |a| && j + n <= |b| && a[i..i + n] == b[j..j + n]
  }

  lemma SameLater(a: Bytes, i: nat, b: Bytes, j: nat, n: nat, m: nat)
    requires Same(a, i, b, j, n) && m <= n
    ensures Same(a, i + m, b, j + m, n - m)
  {
    assert a[i..i + n][m..] == a[i + m..i + n] && b[j..j + n][m..] == b[j + m..j + n];
  }

  lemma SameFirst(a: Bytes, i: nat, b: Bytes, j: nat, n: nat)
    requires Same(a, i, b, j, n) && n > 0
    ensures a[i] == b[j] && (n > 1 ==> a[i + 1] == b[j + 1])
  {
    assert a[i..i + n][0] == a[i] && b[j..j + n][0] == b[j];
    assert n > 1 ==> a[i..i + n][1] == a[i + 1] && b[j..j + n][1] == b[j + 1];
  }

  lemma {:induction false} SingleIsLocal(a: Bytes, i: nat, b: Bytes, j: nat, n: nat)
    requires Same(a, i, b, j, n) && SingleEnd(a, i) < i + n
    ensures SingleEnd(b, j) == j + (SingleEnd(a, i) - i)
    decreases n
  {
    hide Same;
    assert i < |a| && j < |b| by {
      SameWithin(a, i, b, j, n);
    }
    SameFirst(a, i, b, j, n);
    if a[i] != APOSTROPHE {
      SameLater(a, i, b, j, n, 1);
      SingleIsLocal(a, i + 1, b, j + 1, n - 1);
    }
  }

  lemma SameWithin(a: Bytes, i: nat, b: Bytes, j: nat, n: nat)
    requires Same(a, i, b, j, n)
    ensures i + n <= |a| && j + n <= |b|
  {
  }

  lemma {:induction false} EscapedIsLocal(a: Bytes, i: nat, b: Bytes, j: nat, n: nat, close: Byte)
    requires Same(a, i, b, j, n) && EscapedEnd(a, i, close) < i + n
    ensures EscapedEnd(b, j, close) == j + (EscapedEnd(a, i, close) - i)
    decreases n
  {
    hide Same;
    SameWithin(a, i, b, j, n);
    SameFirst(a, i, b, j, n);
    if a[i] == close {
    } else if a[i] == BACKSLASH {
      SameLater(a, i, b, j, n, 2);
      EscapedIsLocal(a, i + 2, b, j + 2, n - 2, close);
    } else {
      SameLater(a, i, b, j, n, 1);
      EscapedIsLocal(a, i + 1, b, j + 1, n - 1, close);
    }
  }

  lemma {:induction false} DoubleIsLocal(a: Bytes, i: nat, b: Bytes, j: nat, n: nat)
    requires Same(a, i, b, j, n) && i <= |a| && j <= |b| && DoubleSpanEnd(a, i) < i + n
    ensures DoubleSpanEnd(b, j) == j + (DoubleSpanEnd(a, i) - i)
    decreases n, 2
  {
    hide Same, EscapedEnd, BraceEnd;
    SameWithin(a, i, b, j, n);
    SameFirst(a, i, b, j, n);
    if a[i] == QUOTE {
    } else if a[i] == BACKSLASH {
      SameLater(a, i, b, j, n, 2);
      DoubleIsLocal(a, i + 2, b, j + 2, n - 2);
    } else if a[i] == BACKQUOTE {
      var m := EscapedEnd(a, i + 1, BACKQUOTE) - i;
      SameLater(a, i, b, j, n, 1);
      EscapedIsLocal(a, i + 1, b, j + 1, n - 1, BACKQUOTE);
      SameLater(a, i, b, j, n, m);
      DoubleIsLocal(a, i + m, b, j + m, n - m);
    } else if a[i] == DOLLAR && ByteAt(a, i + 1, OPEN_BRACE) {
      var m := BraceEnd(a, i + 2) - i;
      SameLater(a, i, b, j, n, 2);
      BraceIsLocal(a, i + 2, b, j + 2, n - 2);
      SameLater(a, i, b, j, n, m);
      DoubleIsLocal(a, i + m, b, j + m, n - m);
    } else {
      SameLater(a, i, b, j, n, 1);
      DoubleIsLocal(a, i + 1, b, j + 1, n - 1);
    }
  }

  lemma {:induction false} UnitIsLocal(a: Bytes, i: nat, b: Bytes, j: nat, n: nat)
    requires Same(a, i, b, j, n) && i < |a| && j < |b| && NextUnit(a, i) < i + n
    ensures NextUnit(b, j) == j + (NextUnit(a, i) - i)
    decreases n, 0
  {
    hide Same, EscapedEnd, DoubleSpanEnd, SingleEnd;
    SameWithin(a, i, b, j, n);
    SameFirst(a, i, b, j, n);
    SameLater(a, i, b, j, n, 1);
    if a[i] == APOSTROPHE {
      SingleIsLocal(a, i + 1, b, j + 1, n - 1);
    } else if a[i] == QUOTE {
      DoubleIsLocal(a, i + 1, b, j + 1, n - 1);
    } else if a[i] == BACKQUOTE {
      EscapedIsLocal(a, i + 1, b, j + 1, n - 1, BACKQUOTE);
    }
  }

  lemma {:induction false} CloseIsLocal(a: Bytes, i: nat, b: Bytes, j: nat, n: nat, open: Byte, close: Byte, depth: nat)
    requires Same(a, i, b, j, n) && i <= |a| && j <= |b| && depth > 0
    requires var r := CloseOf(a, i, open, close, depth); r.Some? && r.value < i + n
    ensures CloseOf(b, j, open, close, depth) == Some(j + (CloseOf(a, i, open, close, depth).value - i))
    decreases n, 1
  {
    hide Same, NextUnit;
    SameWithin(a, i, b, j, n);
    SameFirst(a, i, b, j, n);
    if a[i] == open {
      SameLater(a, i, b, j, n, 1);
      CloseIsLocal(a, i + 1, b, j + 1, n - 1, open, close, depth + 1);
    } else if a[i] == close {
      if depth > 1 {
        SameLater(a, i, b, j, n, 1);
        CloseIsLocal(a, i + 1, b, j + 1, n - 1, open, close, depth - 1);
      }
    } else {
      var m := NextUnit(a, i) - i;
      UnitIsLocal(a, i, b, j, n);
      SameLater(a, i, b, j, n, m);
      CloseIsLocal(a, i + m, b, j + m, n - m, open, close, depth);
    }
  }

  lemma {:induction false} BraceIsLocal(a: Bytes, i: nat, b: Bytes, j: nat, n: nat)
    requires Same(a, i, b, j, n) && i <= |a| && j <= |b| && BraceEnd(a, i) < i + n
    ensures BraceEnd(b, j) == j + (BraceEnd(a, i) - i)
    decreases n, 2
  {
    hide CloseOf;
    CloseIsLocal(a, i, b, j, n, OPEN_BRACE, CLOSE_BRACE, 1);
  }
}
