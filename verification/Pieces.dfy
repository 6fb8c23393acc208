/** Splitting text at a separator and joining it again (str.split and str.join). */
module Pieces {
  import opened Prelude

  lemma {:induction false} SplitNone(s: string, sep: char)
    requires sep !in s
    ensures Split(s, sep) == [s]
  {
    if s != "" {
      SplitNone(s[1..], sep);
      assert [s[0]] + s[1..] == s;
    }
  }

  /** `parts` are the pieces of `text` between the separators. */
  predicate ArePieces(text: string, sep: char, parts: seq<string>) {
    |parts| > 0 && (forall p :: p in parts ==> sep !in p) && Join(parts, [sep]) == text
  }

  lemma {:induction false} SplitIsPieces(text: string, sep: char)
    ensures ArePieces(text, sep, Split(text, sep))
  {
    if text != "" {
      SplitIsPieces(text[1..], sep);
      var rest := Split(text[1..], sep);
      assert text == [text[0]] + text[1..];
      if text[0] == sep {
        JoinFront("", rest, [sep]);
        assert forall p :: p in [""] + rest <==> p == "" || p in rest;
      } else {
        JoinPushed(text[0], rest, [sep]);
        assert rest[0] in rest;
        assert forall p :: p in [[text[0]] + rest[0]] + rest[1..] ==> p == [text[0]] + rest[0] || p in rest;
      }
    }
  }

  lemma {:induction false} JoinFront(head: string, tail: seq<string>, sep: string)
    requires tail != []
    ensures Join([head] + tail, sep) == head + sep + Join(tail, sep)
    decreases |tail|
  {
    var all := [head] + tail;
    if |tail| > 1 {
      assert all[..|all| - 1] == [head] + tail[..|tail| - 1];
      JoinFront(head, tail[..|tail| - 1], sep);
      Regroup(head + sep, Join(tail[..|tail| - 1], sep), sep, tail[|tail| - 1]);
    } else {
      assert all[..1] == [head];
    }
  }

  lemma Regroup(a: string, b: string, c: string, d: string)
    ensures (a + b) + c + d == a + (b + c + d)
  {}

  lemma JoinPushed(c: char, parts: seq<string>, sep: string)
    requires parts != []
    ensures Join([[c] + parts[0]] + parts[1..], sep) == [c] + Join(parts, sep)
  {
    if |parts| > 1 {
      JoinFront([c] + parts[0], parts[1..], sep);
      JoinFront(parts[0], parts[1..], sep);
      assert parts == [parts[0]] + parts[1..];
      Regroup([c], parts[0], sep, Join(parts[1..], sep));
      assert [c] + parts[0] + sep + Join(parts[1..], sep) == [c] + (parts[0] + sep + Join(parts[1..], sep));
    } else {
      assert [[c] + parts[0]] + parts[1..] == [[c] + parts[0]];
    }
  }

  /** Only one list of pieces joins to a text. */
  lemma {:induction false} PiecesAreSplit(text: string, sep: char, parts: seq<string>)
    requires ArePieces(text, sep, parts)
    ensures parts == Split(text, sep)
    decreases |parts|
  {
    if |parts| == 1 {
      assert parts[0] in parts;
      SplitNone(text, sep);
    } else {
      var rest := parts[1..];
      assert parts == [parts[0]] + rest && parts[0] in parts;
      JoinFront(parts[0], rest, [sep]);
      assert ArePieces(Join(rest, [sep]), sep, rest);
      PiecesAreSplit(Join(rest, [sep]), sep, rest);
      SplitFront(parts[0], sep, Join(rest, [sep]));
    }
  }

  lemma {:induction false} SplitFront(head: string, sep: char, tail: string)
    requires sep !in head
    ensures Split(head + [sep] + tail, sep) == [head] + Split(tail, sep)
  {
    var s := head + [sep] + tail;
    if head == "" {
      assert s[1..] == tail;
    } else {
      assert s[1..] == head[1..] + [sep] + tail && s[0] == head[0];
      SplitFront(head[1..], sep, tail);
      assert [head[0]] + head[1..] == head;
    }
  }

  /** Joined pieces hold the separator when there is more than one. */
  lemma JoinHas(parts: seq<string>, sep: char)
    requires parts != [] && forall p :: p in parts ==> sep !in p
    ensures sep in Join(parts, [sep]) <==> |parts| > 1
  {
    if |parts| > 1 {
      var most := Join(parts[..|parts| - 1], [sep]);
      assert (most + [sep] + parts[|parts| - 1])[|most|] == sep;
    } else {
      assert parts[0] in parts;
    }
  }
}
