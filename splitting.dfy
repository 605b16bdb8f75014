/**
 * String splitting used by the task-argument grammar: Python's plain
 * `str.split(sep)` and the escape-aware splitter in which a backslash
 * directly before the separator makes that separator literal content.
 */
module Splitting {

  const Backslash: char := '\\'

  /** Python's `str.split(sep)` with an explicit one-character separator: never empty, keeps empty pieces. */
  function Split(sep: char, s: string): (r: seq<string>)
    ensures |r| >= 1
    ensures forall i :: 0 <= i < |r| ==> sep !in r[i]
    decreases |s|
  {
    if |s| == 0 then [""]
    else
      var rest := Split(sep, s[1..]);
      if s[0] == sep then [""] + rest
      else [[s[0]] + rest[0]] + rest[1..]
  }

  /** Python's `sep.join(parts)`. */
  function Join(sep: char, parts: seq<string>): (r: string)
  {
    if |parts| == 0 then ""
    else if |parts| == 1 then parts[0]
    else parts[0] + [sep] + Join(sep, parts[1..])
  }

  /**
   * The escape-aware splitter: splits `s` at every `sep` that is not directly
   * preceded by a backslash; an escaping backslash is dropped and its separator
   * kept as content. Other backslashes are left alone; empty pieces are kept.
   */
  function EscapeSplit(sep: char, s: string): (r: seq<string>)
    ensures |r| >= 1
    decreases |s|
  {
    if |s| == 0 then [""]
    else if s[0] == Backslash && |s| >= 2 && s[1] == sep then
      var rest := EscapeSplit(sep, s[2..]);
      [[sep] + rest[0]] + rest[1..]
    else if s[0] == sep then [""] + EscapeSplit(sep, s[1..])
    else
      var rest := EscapeSplit(sep, s[1..]);
      [[s[0]] + rest[0]] + rest[1..]
  }

  /** Writes every `sep` in `p` as a backslash followed by `sep`. */
  function Escape(sep: char, p: string): (r: string)
  {
    if |p| == 0 then ""
    else (if p[0] == sep then [Backslash, sep] else [p[0]]) + Escape(sep, p[1..])
  }

  /** The inverse of the escape-aware splitter: escape each piece and join with `sep`. */
  function EscapeJoin(sep: char, parts: seq<string>): (r: string)
  {
    if |parts| == 0 then ""
    else if |parts| == 1 then Escape(sep, parts[0])
    else Escape(sep, parts[0]) + [sep] + EscapeJoin(sep, parts[1..])
  }

  /** True iff `s` contains a backslash directly followed by `sep`. */
  predicate HasEscapedSep(sep: char, s: string)
  {
    exists i :: 0 <= i < |s| - 1 && s[i] == Backslash && s[i + 1] == sep
  }

  /** A piece that may precede a separator in an escaped join: it must not end in a backslash. */
  predicate Joinable(p: string)
  {
    p == [] || p[|p| - 1] != Backslash
  }

  // ---------------------------------------------------------------------------
  // Plain split

  lemma {:induction false} JoinSplit(sep: char, s: string)
    ensures Join(sep, Split(sep, s)) == s
    decreases |s|
  {
    if |s| > 0 {
      var rest := Split(sep, s[1..]);
      JoinSplit(sep, s[1..]);
      if s[0] == sep {
        assert Split(sep, s) == [""] + rest;
        assert Join(sep, [""] + rest) == "" + [sep] + Join(sep, rest) by {
          assert ([""] + rest)[1..] == rest;
        }
        assert s == [s[0]] + s[1..];
      } else {
        JoinConsHead(sep, s[0], rest);
        assert s == [s[0]] + s[1..];
      }
    }
  }

  /** Putting a character in front of the first piece puts it in front of the joined string. */
  lemma JoinConsHead(sep: char, c: char, parts: seq<string>)
    requires |parts| >= 1
    ensures Join(sep, [[c] + parts[0]] + parts[1..]) == [c] + Join(sep, parts)
  {
    var q := [[c] + parts[0]] + parts[1..];
    if |parts| > 1 {
      assert q[1..] == parts[1..];
    }
  }

  lemma {:induction false} SplitJoin(sep: char, parts: seq<string>)
    requires |parts| >= 1
    requires forall i :: 0 <= i < |parts| ==> sep !in parts[i]
    ensures Split(sep, Join(sep, parts)) == parts
    decreases |parts|, |parts[0]|
  {
    var p := parts[0];
    if |p| > 0 {
      var tail := [p[1..]] + parts[1..];
      var j := Join(sep, tail);
      assert Split(sep, j) == tail by {
        assert tail[1..] == parts[1..];
        SplitJoin(sep, tail);
      }
      assert Join(sep, parts) == [p[0]] + j by {
        JoinConsHead(sep, p[0], tail);
        assert [[p[0]] + tail[0]] + tail[1..] == parts by {
          assert [p[0]] + p[1..] == p;
        }
      }
      assert ([p[0]] + j)[1..] == j;
      assert [[p[0]] + tail[0]] + tail[1..] == parts by {
        assert [p[0]] + p[1..] == p;
      }
    } else if |parts| > 1 {
      var j := Join(sep, parts[1..]);
      assert Split(sep, j) == parts[1..] by {
        SplitJoin(sep, parts[1..]);
      }
      assert Join(sep, parts) == [sep] + j;
      assert ([sep] + j)[1..] == j;
      assert parts == [""] + parts[1..];
    }
  }

  // ---------------------------------------------------------------------------
  // Escape-aware split

  /** Escaping distributes over concatenation. */
  lemma {:induction false} EscapeAppend(sep: char, p: string, q: string)
    ensures Escape(sep, p + q) == Escape(sep, p) + Escape(sep, q)
    decreases |p|
  {
    if |p| > 0 {
      assert (p + q)[1..] == p[1..] + q;
      EscapeAppend(sep, p[1..], q);
    } else {
      assert p + q == q;
    }
  }

  lemma EscapeJoinConsHead(sep: char, c: char, parts: seq<string>)
    requires |parts| >= 1
    ensures EscapeJoin(sep, [[c] + parts[0]] + parts[1..]) == Escape(sep, [c]) + EscapeJoin(sep, parts)
  {
    var q := [[c] + parts[0]] + parts[1..];
    EscapeAppend(sep, [c], parts[0]);
    if |parts| > 1 {
      assert q[1..] == parts[1..];
    }
  }

  /** Whatever the separator, escaping the pieces and joining them rebuilds the split text. */
  lemma {:induction false} EscapeJoinOfEscapeSplit(sep: char, s: string)
    ensures EscapeJoin(sep, EscapeSplit(sep, s)) == s
    decreases |s|
  {
    if |s| == 0 {
    } else if s[0] == Backslash && |s| >= 2 && s[1] == sep {
      EscapeJoinOfEscapeSplit(sep, s[2..]);
      RejoinEscapedSep(sep, s, EscapeSplit(sep, s[2..]));
    } else if s[0] == sep {
      EscapeJoinOfEscapeSplit(sep, s[1..]);
      RejoinSep(sep, s, EscapeSplit(sep, s[1..]));
    } else {
      EscapeJoinOfEscapeSplit(sep, s[1..]);
      RejoinChar(sep, s, EscapeSplit(sep, s[1..]));
    }
  }

  /** The step of the round trip above for text that starts with an escaped separator. */
  lemma RejoinEscapedSep(sep: char, s: string, rest: seq<string>)
    requires |s| >= 2 && s[0] == Backslash && s[1] == sep
    requires rest == EscapeSplit(sep, s[2..]) && EscapeJoin(sep, rest) == s[2..]
    ensures EscapeJoin(sep, EscapeSplit(sep, s)) == s
  {
    assert EscapeSplit(sep, s) == [[sep] + rest[0]] + rest[1..];
    EscapeJoinConsHead(sep, sep, rest);
    assert s == [Backslash, sep] + s[2..];
  }

  /** The step of the round trip above for text that starts with a bare separator. */
  lemma RejoinSep(sep: char, s: string, rest: seq<string>)
    requires |s| >= 1 && s[0] == sep && !(s[0] == Backslash && |s| >= 2 && s[1] == sep)
    requires rest == EscapeSplit(sep, s[1..]) && EscapeJoin(sep, rest) == s[1..]
    ensures EscapeJoin(sep, EscapeSplit(sep, s)) == s
  {
    assert EscapeSplit(sep, s) == [""] + rest;
    assert ([""] + rest)[1..] == rest;
    assert s == [sep] + s[1..];
  }

  /** The step of the round trip above for text that starts with any other character. */
  lemma RejoinChar(sep: char, s: string, rest: seq<string>)
    requires |s| >= 1 && s[0] != sep && !(s[0] == Backslash && |s| >= 2 && s[1] == sep)
    requires rest == EscapeSplit(sep, s[1..]) && EscapeJoin(sep, rest) == s[1..]
    ensures EscapeJoin(sep, EscapeSplit(sep, s)) == s
  {
    assert EscapeSplit(sep, s) == [[s[0]] + rest[0]] + rest[1..];
    EscapeJoinConsHead(sep, s[0], rest);
    assert s == [s[0]] + s[1..];
  }

  /** A piece without the separator is its own escaped form. */
  lemma {:induction false} EscapeWithoutSep(sep: char, p: string)
    requires sep !in p
    ensures Escape(sep, p) == p
    decreases |p|
  {
    if |p| > 0 {
      EscapeWithoutSep(sep, p[1..]);
      assert p == [p[0]] + p[1..];
    }
  }

  /** The characters of an escaped piece: it starts with the piece's first character or an escaping backslash. */
  lemma EscapeHead(sep: char, p: string)
    requires |p| > 0
    ensures |Escape(sep, p)| > 0
    ensures Escape(sep, p)[0] == if p[0] == sep then Backslash else p[0]
  {
  }

  /**
   * Splitting the escaped form of a piece followed by more text yields the
   * piece glued onto the first piece of that text.
   */
  lemma {:induction false} EscapeSplitOfEscaped(sep: char, p: string, u: string)
    requires sep != Backslash
    requires !Joinable(p) ==> u == [] || u[0] != sep
    ensures EscapeSplit(sep, Escape(sep, p) + u) == [p + EscapeSplit(sep, u)[0]] + EscapeSplit(sep, u)[1..]
    decreases |p|
  {
    var r := EscapeSplit(sep, u);
    if |p| == 0 {
      assert Escape(sep, p) + u == u;
      assert p + r[0] == r[0];
      assert [r[0]] + r[1..] == r;
    } else {
      assert Joinable(p) == Joinable(p[1..]) || p[1..] == [];
      EscapeSplitOfEscaped(sep, p[1..], u);
      if p[0] == sep {
        EscapedSepStep(sep, p, u, r, Escape(sep, p[1..]) + u);
      } else {
        NoSepAfterBackslash(sep, p, u);
        EscapedCharStep(sep, p, u, r, Escape(sep, p[1..]) + u);
      }
    }
  }

  /** The step of the induction above for a piece that starts with the separator. */
  lemma EscapedSepStep(sep: char, p: string, u: string, r: seq<string>, t: string)
    requires |r| >= 1 && |p| > 0 && p[0] == sep
    requires t == Escape(sep, p[1..]) + u
    requires EscapeSplit(sep, t) == [p[1..] + r[0]] + r[1..]
    ensures EscapeSplit(sep, Escape(sep, p) + u) == [p + r[0]] + r[1..]
  {
    assert [p[0]] + (p[1..] + r[0]) == p + r[0];
    assert Escape(sep, p) + u == [Backslash, sep] + t;
    SplitAfterEscapedSep(sep, t, p[1..] + r[0], r[1..]);
  }

  /** The step of the induction above for a piece that starts with another character. */
  lemma EscapedCharStep(sep: char, p: string, u: string, r: seq<string>, t: string)
    requires |r| >= 1 && |p| > 0 && p[0] != sep
    requires t == Escape(sep, p[1..]) + u
    requires p[0] == Backslash && |t| > 0 ==> t[0] != sep
    requires EscapeSplit(sep, t) == [p[1..] + r[0]] + r[1..]
    ensures EscapeSplit(sep, Escape(sep, p) + u) == [p + r[0]] + r[1..]
  {
    assert [p[0]] + (p[1..] + r[0]) == p + r[0];
    assert Escape(sep, p) + u == [p[0]] + t;
    SplitAfterChar(sep, p[0], t, p[1..] + r[0], r[1..]);
  }

  /** A backslash that ends a piece is not followed by a separator in the escaped text. */
  lemma NoSepAfterBackslash(sep: char, p: string, u: string)
    requires sep != Backslash && |p| > 0
    requires !Joinable(p) ==> u == [] || u[0] != sep
    ensures p[0] == Backslash && |Escape(sep, p[1..]) + u| > 0 ==> (Escape(sep, p[1..]) + u)[0] != sep
  {
    var p' := p[1..];
    var t := Escape(sep, p') + u;
    if p[0] == Backslash && |t| > 0 {
      if |p'| > 0 {
        EscapeHead(sep, p');
        assert t[0] == Escape(sep, p')[0];
        assert p'[0] == p[1];
      } else {
        assert t == u;
        assert p == [Backslash];
      }
    }
  }

  /** An escaped separator in front of text goes to the front of its first piece. */
  lemma SplitAfterEscapedSep(sep: char, t: string, q: string, rs: seq<string>)
    requires EscapeSplit(sep, t) == [q] + rs
    ensures EscapeSplit(sep, [Backslash, sep] + t) == [[sep] + q] + rs
  {
    assert ([Backslash, sep] + t)[2..] == t;
  }

  /** A character other than the separator, not escaping one, goes to the front of the first piece. */
  lemma SplitAfterChar(sep: char, c: char, t: string, q: string, rs: seq<string>)
    requires c != sep && (c == Backslash && |t| > 0 ==> t[0] != sep)
    requires EscapeSplit(sep, t) == [q] + rs
    ensures EscapeSplit(sep, [c] + t) == [[c] + q] + rs
  {
    assert ([c] + t)[1..] == t;
  }

  /** For a separator other than backslash, splitting an escaped join gives back its pieces. */
  lemma {:induction false} EscapeSplitOfEscapeJoin(sep: char, parts: seq<string>)
    requires sep != Backslash
    requires |parts| >= 1
    requires forall i :: 0 <= i < |parts| - 1 ==> Joinable(parts[i])
    ensures EscapeSplit(sep, EscapeJoin(sep, parts)) == parts
    decreases |parts|
  {
    if |parts| == 1 {
      EscapeSplitOfEscaped(sep, parts[0], "");
      assert Escape(sep, parts[0]) + "" == Escape(sep, parts[0]);
      assert EscapeSplit(sep, "") == [""];
      assert parts[0] + "" == parts[0];
      assert parts == [parts[0]];
    } else {
      var rest := parts[1..];
      EscapeSplitOfEscapeJoin(sep, rest);
      var u := [sep] + EscapeJoin(sep, rest);
      assert EscapeJoin(sep, parts) == Escape(sep, parts[0]) + u;
      assert Joinable(parts[0]);
      EscapeSplitOfEscaped(sep, parts[0], u);
      assert u[1..] == EscapeJoin(sep, rest);
      assert u[0] == sep && u[0] != Backslash;
      assert EscapeSplit(sep, u) == [""] + EscapeSplit(sep, u[1..]);
      assert EscapeSplit(sep, u) == [""] + rest;
      assert ([""] + rest)[0] == "" && ([""] + rest)[1..] == rest;
      assert parts[0] + "" == parts[0];
      assert parts == [parts[0]] + rest;
    }
  }

  /** Without an escaped separator the escape-aware splitter is Python's plain split. */
  lemma {:induction false} EscapeSplitIsSplit(sep: char, s: string)
    requires !HasEscapedSep(sep, s)
    ensures EscapeSplit(sep, s) == Split(sep, s)
    decreases |s|
  {
    if |s| > 0 {
      assert !HasEscapedSep(sep, s[1..]) by {
        forall i | 0 <= i < |s[1..]| - 1
          ensures !(s[1..][i] == Backslash && s[1..][i + 1] == sep)
        {
          assert s[1..][i] == s[i + 1] && s[1..][i + 1] == s[i + 2];
        }
      }
      EscapeSplitIsSplit(sep, s[1..]);
      if s[0] == Backslash && |s| >= 2 {
        assert s[1] != sep;
      }
    }
  }

  /** Escaping each separator of three separator-free pieces. */
  lemma EscapeOfThree(sep: char, a: string, b: string, c: string)
    requires sep !in a && sep !in b && sep !in c
    ensures Escape(sep, a + [sep] + b + [sep] + c) == a + [Backslash, sep] + b + [Backslash, sep] + c
  {
    EscapeWithoutSep(sep, a);
    EscapeThenSep(sep, a, b);
    EscapeThenSep(sep, a + [sep] + b, c);
  }

  /** A separator followed by separator-free text, after anything. */
  lemma EscapeThenSep(sep: char, x: string, c: string)
    requires sep !in c
    ensures Escape(sep, x + [sep] + c) == Escape(sep, x) + [Backslash, sep] + c
  {
    EscapeAppend(sep, x, [sep]);
    EscapeAppend(sep, x + [sep], c);
    EscapeWithoutSep(sep, c);
    assert Escape(sep, [sep]) == [Backslash, sep];
  }

  lemma EscapeJoinOfThree(sep: char, x: string, y: string, z: string)
    ensures EscapeJoin(sep, [x, y, z]) == Escape(sep, x) + [sep] + Escape(sep, y) + [sep] + Escape(sep, z)
  {
    assert [x, y, z][1..] == [y, z];
    assert [y, z][1..] == [z];
    var a, b, c := Escape(sep, x), Escape(sep, y), Escape(sep, z);
    assert EscapeJoin(sep, [y, z]) == b + [sep] + c;
    assert a + [sep] + (b + [sep] + c) == a + [sep] + b + [sep] + c;
  }

  /**
   * The shape of the escaped-argument test, for any pieces: two escaped commas
   * between plain pieces join those pieces into one argument, commas and all.
   */
  lemma EscapedCommasJoinPieces(a: string, b: string, c: string, d: string, e: string)
    requires ',' !in a && ',' !in b && ',' !in c && ',' !in d && ',' !in e
    requires Joinable(a) && Joinable(d)
    ensures EscapeSplit(',', a + [','] + (b + [Backslash, ','] + c + [Backslash, ','] + d) + [','] + e)
         == [a, b + [','] + c + [','] + d, e]
  {
    var m := b + [','] + c + [','] + d;
    var parts := [a, m, e];
    assert EscapeJoin(',', parts) == a + [','] + (b + [Backslash, ','] + c + [Backslash, ','] + d) + [','] + e by {
      EscapeWithoutSep(',', a);
      EscapeWithoutSep(',', e);
      EscapeOfThree(',', b, c, d);
      EscapeJoinOfThree(',', a, m, e);
    }
    assert Joinable(m) by {
      if d != [] { assert m[|m| - 1] == d[|d| - 1]; }
    }
    EscapeSplitOfEscapeJoin(',', parts);
  }

  lemma TestArgStringPieces()
    ensures "foo,bar\\,biz\\,baz,what comes after baz?"
         == "foo" + [','] + ("bar" + [Backslash, ','] + "biz" + [Backslash, ','] + "baz") + [','] + "what comes after baz?"
  {
  }

  /** tests/test_main.py:57-65: escaped commas stay inside their piece, without the backslash. */
  lemma EscapedTaskArgSplit()
    ensures EscapeSplit(',', "foo,bar\\,biz\\,baz,what comes after baz?")
         == ["foo", "bar,biz,baz", "what comes after baz?"]
  {
    TestArgStringPieces();
    var s := "foo" + [','] + ("bar" + [Backslash, ','] + "biz" + [Backslash, ','] + "baz") + [','] + "what comes after baz?";
    assert EscapeSplit(',', s) == ["foo", "bar" + [','] + "biz" + [','] + "baz", "what comes after baz?"] by {
      EscapedCommasJoinPieces("foo", "bar", "biz", "baz", "what comes after baz?");
    }
    assert "bar" + [','] + "biz" + [','] + "baz" == "bar,biz,baz";
  }
}
