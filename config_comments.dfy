/** Comment removal of ConfigParser.remove_comments
    (config_to_json/config_to_json.py:49-54): first every block comment
    `(comment ... )` is deleted, the first `)` closing it, across lines and
    without nesting; then every line comment from `#` to the end of its line. */
module ConfigComments {

  const BlockOpen: string := "(comment"

  predicate StartsWith(s: string, prefix: string)
  {
    |prefix| <= |s| && s[..|prefix|] == prefix
  }

  /** The index of the first `c` in `s`, or |s| when there is none. */
  function FirstIndexOf(s: string, c: char): (r: nat)
    ensures r <= |s|
    ensures r < |s| ==> s[r] == c
    ensures c !in s[..r]
  {
    if s == [] then 0
    else if s[0] == c then 0
    else
      var k := FirstIndexOf(s[1..], c);
      assert s[..k + 1] == [s[0]] + s[1..][..k];
      1 + k
  }

  /** The first pass: `re.sub(r'\(comment.*?\)', '', text, flags=re.DOTALL)`.
      Where a block comment opens and a `)` follows, everything up to and
      including that first `)` is dropped; an opener without any later `)` is
      kept character by character. */
  function StripBlockComments(s: string): (r: string)
    ensures |r| <= |s|
    decreases |s|
  {
    if s == [] then []
    else if StartsWith(s, BlockOpen) && FirstIndexOf(s[8..], ')') < |s| - 8 then
      StripBlockComments(s[8 + FirstIndexOf(s[8..], ')') + 1..])
    else [s[0]] + StripBlockComments(s[1..])
  }

  /** The second pass: `re.sub(r'#.*', '', text)`. A `#` and the rest of its
      line are dropped; the newline that ends the line is kept. */
  function StripLineComments(s: string): (r: string)
    ensures '#' !in r
    ensures |r| <= |s|
    decreases |s|
  {
    if s == [] then []
    else if s[0] == '#' then StripLineComments(s[FirstIndexOf(s, '\n')..])
    else [s[0]] + StripLineComments(s[1..])
  }

  /** ConfigParser.remove_comments: block comments first, then line comments. */
  function RemoveComments(text: string): (r: string)
    ensures '#' !in r
    ensures |r| <= |text|
  {
    StripLineComments(StripBlockComments(text))
  }

  /** The number of occurrences of c in s. */
  function Count(s: string, c: char): nat
  {
    if s == [] then 0 else (if s[0] == c then 1 else 0) + Count(s[1..], c)
  }

  lemma {:induction false} CountAppend(a: string, b: string, c: char)
    ensures Count(a + b, c) == Count(a, c) + Count(b, c)
  {
    if a == [] {
      assert a + b == b;
    } else {
      assert (a + b)[1..] == a[1..] + b;
      CountAppend(a[1..], b, c);
    }
  }

  lemma CountAbsent(s: string, c: char)
    requires c !in s
    ensures Count(s, c) == 0
  {
  }

  /** Removing line comments keeps every line: the number of newlines does not change. */
  lemma {:induction false} StripLineCommentsKeepsLines(s: string)
    ensures Count(StripLineComments(s), '\n') == Count(s, '\n')
    decreases |s|
  {
    if s == [] {
    } else if s[0] == '#' {
      var k := FirstIndexOf(s, '\n');
      assert s == s[..k] + s[k..];
      CountAppend(s[..k], s[k..], '\n');
      CountAbsent(s[..k], '\n');
      StripLineCommentsKeepsLines(s[k..]);
    } else {
      assert s == [s[0]] + s[1..];
      CountAppend([s[0]], s[1..], '\n');
      StripLineCommentsKeepsLines(s[1..]);
    }
  }

  /** Text without `#` passes the second pass unchanged. */
  lemma {:induction false} StripLineCommentsIdentity(s: string)
    requires '#' !in s
    ensures StripLineComments(s) == s
  {
    if s != [] {
      assert s == [s[0]] + s[1..];
      StripLineCommentsIdentity(s[1..]);
    }
  }

  /** Text without any `)` passes the first pass unchanged: an unclosed
      `(comment` survives, and its `(` is left for the tokenizer. */
  lemma {:induction false} UnclosedBlockCommentSurvives(s: string)
    requires ')' !in s
    ensures StripBlockComments(s) == s
  {
    if s != [] {
      if StartsWith(s, BlockOpen) {
        assert ')' !in s[8..];
        assert FirstIndexOf(s[8..], ')') == |s| - 8;
      }
      assert s == [s[0]] + s[1..];
      UnclosedBlockCommentSurvives(s[1..]);
    }
  }

  /** A block comment ends at the first `)` after its opener, whatever the
      body holds, nested openers included. */
  lemma BlockCommentEndsAtFirstClose(body: string, rest: string)
    requires ')' !in body
    ensures StripBlockComments(BlockOpen + body + ")" + rest) == StripBlockComments(rest)
  {
    var s := BlockOpen + body + ")" + rest;
    assert StartsWith(s, BlockOpen) by { assert s[..8] == BlockOpen; }
    assert s[8..] == body + ")" + rest;
    FirstIndexIs(body, ')', rest);
    assert s[8 + |body| + 1..] == rest;
  }

  /** The first `c` of `body + [c] + rest` is the one after `body` when `body` holds none. */
  lemma {:induction false} FirstIndexIs(body: string, c: char, rest: string)
    requires c !in body
    ensures FirstIndexOf(body + [c] + rest, c) == |body|
  {
    if body != [] {
      assert (body + [c] + rest)[1..] == body[1..] + [c] + rest;
      FirstIndexIs(body[1..], c, rest);
    }
  }

  /** The first pass keeps, character for character, any text before the first `(`. */
  lemma {:induction false} BlockPassKeepsPlainPrefix(a: string, t: string)
    requires '(' !in a
    ensures StripBlockComments(a + t) == a + StripBlockComments(t)
  {
    if a == [] {
      assert a + t == t;
    } else {
      var s := a + t;
      assert !StartsWith(s, BlockOpen) by {
        assert s[0] == a[0] != '(';
        if |BlockOpen| <= |s| { assert s[..|BlockOpen|][0] == s[0]; }
      }
      assert s[1..] == a[1..] + t;
      assert StripBlockComments(s) == [s[0]] + StripBlockComments(s[1..]);
      BlockPassKeepsPlainPrefix(a[1..], t);
      assert [a[0]] + (a[1..] + StripBlockComments(t)) == a + StripBlockComments(t);
    }
  }

  /** A block comment in mid-text is cut out: the text before its opener and
      the text after its first `)` are kept. */
  lemma BlockCommentRemoved(a: string, body: string, rest: string)
    requires '(' !in a && ')' !in body
    ensures StripBlockComments(a + BlockOpen + body + ")" + rest) == a + StripBlockComments(rest)
  {
    assert a + BlockOpen + body + ")" + rest == a + (BlockOpen + body + ")" + rest);
    BlockPassKeepsPlainPrefix(a, BlockOpen + body + ")" + rest);
    BlockCommentEndsAtFirstClose(body, rest);
  }

  /** The second pass keeps, character for character, any text before the first `#`. */
  lemma {:induction false} LinePassKeepsPlainPrefix(a: string, t: string)
    requires '#' !in a
    ensures StripLineComments(a + t) == a + StripLineComments(t)
  {
    if a == [] {
      assert a + t == t;
    } else {
      var s := a + t;
      assert s[0] == a[0] && s[1..] == a[1..] + t;
      assert StripLineComments(s) == [s[0]] + StripLineComments(s[1..]);
      LinePassKeepsPlainPrefix(a[1..], t);
      assert [a[0]] + (a[1..] + StripLineComments(t)) == a + StripLineComments(t);
    }
  }

  /** A line comment is cut from its `#` up to, not including, the newline
      ending its line: the text before the `#`, the newline and the
      following lines are kept. */
  lemma LineCommentRemoved(a: string, b: string, c: string)
    requires '#' !in a && '\n' !in b
    ensures StripLineComments(a + "#" + b + "\n" + c) == a + "\n" + StripLineComments(c)
  {
    var u := "#" + b + "\n" + c;
    assert a + "#" + b + "\n" + c == a + u;
    LinePassKeepsPlainPrefix(a, u);
    assert u == "#" + b + "\n" + c;
    FirstIndexIs("#" + b, '\n', c);
    assert u[1 + |b|..] == "\n" + c;
    assert StripLineComments("\n" + c) == "\n" + StripLineComments(c) by {
      assert ("\n" + c)[1..] == c;
    }
  }

  /** A line comment on the last line, with no newline after it, is cut to the end of the text. */
  lemma LastLineCommentRemoved(a: string, b: string)
    requires '#' !in a && '\n' !in b
    ensures StripLineComments(a + "#" + b) == a
  {
    var u := "#" + b;
    assert a + "#" + b == a + u;
    LinePassKeepsPlainPrefix(a, u);
    assert '\n' !in u;
    assert FirstIndexOf(u, '\n') == |u|;
    assert u[|u|..] == [];
    assert a + [] == a;
  }
}
