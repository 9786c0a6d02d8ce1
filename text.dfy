/**
 * The string glue of the pivot step: texts that land in the same table cell are
 * aggregated with `' '.join`, i.e. separated by exactly one space.
 */
module Text {

  /** `' '.join(ws)`: the words separated by single spaces; no words give "". */
  function Join(ws: seq<string>): (s: string)
    ensures |ws| >= 1 ==> ws[0] <= s
  {
    if |ws| == 0 then ""
    else if |ws| == 1 then ws[0]
    else ws[0] + " " + Join(ws[1..])
  }

  /** `s.split(' ')`: the pieces between single spaces, empty pieces included. */
  function Split(s: string): (ws: seq<string>)
    ensures |ws| >= 1
    ensures forall w :: w in ws ==> ' ' !in w
  {
    if s == [] then [""]
    else
      var rest := Split(s[1..]);
      if s[0] == ' ' then [""] + rest
      else [[s[0]] + rest[0]] + rest[1..]
  }

  /** Joining the pieces of a split with single spaces gives back the text that was split. */
  lemma {:induction false} JoinSplit(s: string)
    ensures Join(Split(s)) == s
  {
    if s != [] {
      var rest := Split(s[1..]);
      JoinSplit(s[1..]);
      if s[0] == ' ' {
        assert Split(s) == [""] + rest;
        assert ([""] + rest)[1..] == rest;
      } else {
        var ws := Split(s);
        assert ws == [[s[0]] + rest[0]] + rest[1..];
        if |rest| == 1 {
          assert ws == [[s[0]] + rest[0]];
          assert s == [s[0]] + s[1..];
        } else {
          assert ws[1..] == rest[1..];
          assert Join(rest) == rest[0] + " " + Join(rest[1..]);
          assert s == [s[0]] + s[1..];
        }
      }
    }
  }

  lemma {:induction false} SplitPrefix(w: string, t: string)
    requires ' ' !in w
    ensures Split(w + t) == [w + Split(t)[0]] + Split(t)[1..]
  {
    var st := Split(t);
    if w == [] {
      assert w + t == t && w + st[0] == st[0];
      assert st == [st[0]] + st[1..];
    } else {
      assert w[0] in w && ' ' !in w[1..];
      SplitPrefix(w[1..], t);
      var rest := Split(w[1..] + t);
      assert rest[0] == w[1..] + st[0] && rest[1..] == st[1..];
      assert (w + t)[0] == w[0] && (w + t)[1..] == w[1..] + t;
      assert Split(w + t) == [[w[0]] + rest[0]] + rest[1..];
      assert [w[0]] + (w[1..] + st[0]) == w + st[0];
    }
  }

  /**
   * Joining words that hold no space and splitting the result again gives the words
   * back: the single-space join keeps every fragment's text apart.
   */
  lemma {:induction false} SplitJoin(ws: seq<string>)
    requires |ws| >= 1
    requires forall w :: w in ws ==> ' ' !in w
    ensures Split(Join(ws)) == ws
  {
    if |ws| == 1 {
      SplitPrefix(ws[0], "");
      assert ws[0] + "" == ws[0];
    } else {
      var tail := Join(ws[1..]);
      SplitJoin(ws[1..]);
      assert Split(" " + tail) == [""] + Split(tail) by {
        assert (" " + tail)[1..] == tail;
      }
      assert Join(ws) == ws[0] + (" " + tail);
      SplitPrefix(ws[0], " " + tail);
      assert ws[0] + "" == ws[0];
      assert ws == [ws[0]] + ws[1..];
    }
  }
}
