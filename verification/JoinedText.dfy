/** Python's `join` and `split` with a separator of one character. */
module JoinedText {

  /** `s.split(sep)`. */
  function Split(s: string, sep: char): (parts: seq<string>)
    ensures parts != []
  {
    if s == "" then [""]
    else if s[0] == sep then [""] + Split(s[1..], sep)
    else var parts := Split(s[1..], sep); [[s[0]] + parts[0]] + parts[1..]
  }

  /** `sep.join(parts)`. */
  function Join(parts: seq<string>, sep: char): string {
    if parts == [] then ""
    else if |parts| == 1 then parts[0]
    else parts[0] + ([sep] + Join(parts[1..], sep))
  }

  lemma {:induction false} SplitHead(a: string, b: string, sep: char)
    requires sep !in a
    ensures Split(a + ([sep] + b), sep) == [a] + Split(b, sep)
    ensures Split(a, sep) == [a]
  {
    if a == "" {
      assert a + ([sep] + b) == [sep] + b && ([sep] + b)[1..] == b;
    } else {
      var s := a + ([sep] + b);
      SplitHead(a[1..], b, sep);
      assert s[0] == a[0] && s[1..] == a[1..] + ([sep] + b);
      assert a == [a[0]] + a[1..];
    }
  }

  /** Splitting undoes joining when no part holds the separator; the empty list
      alone is read back as one empty part. */
  lemma {:induction false} SplitJoin(list: seq<string>, sep: char)
    requires forall s :: s in list ==> sep !in s
    ensures Split(Join(list, sep), sep) == if list == [] then [""] else list
  {
    if list != [] {
      assert list[0] in list;
      if |list| == 1 {
        SplitHead(list[0], "", sep);
      } else {
        SplitJoin(list[1..], sep);
        SplitHead(list[0], Join(list[1..], sep), sep);
        assert list == [list[0]] + list[1..];
      }
    }
  }
}
