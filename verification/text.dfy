/** The string operations the OBJ loader relies on, with .NET semantics:
    `String.Split(char)` keeps empty fields and always returns at least one
    field.  `String.StartsWith(string)` compares under the current culture,
    where some characters (a soft hyphen, say) are ignorable; the model
    takes the ordinal prefix test, which agrees with it on lines without
    such characters. */
module Text {

  /** `s.Split(sep)`: the maximal runs between separators, in order. */
  function Split(s: string, sep: char): (parts: seq<string>)
    ensures |parts| >= 1
    ensures forall i :: 0 <= i < |parts| ==> sep !in parts[i]
  {
    if |s| == 0 then [""]
    else
      var rest := Split(s[1..], sep);
      if s[0] == sep then [""] + rest
      else [[s[0]] + rest[0]] + rest[1..]
  }

  /** `String.Join(sep, parts)`: the fields with a separator between each two. */
  function Join(parts: seq<string>, sep: char): string
    requires |parts| >= 1
  {
    if |parts| == 1 then parts[0] else parts[0] + [sep] + Join(parts[1..], sep)
  }

  /** Joining the fields of a split gives the original string back. */
  lemma {:induction false} JoinSplit(s: string, sep: char)
    ensures Join(Split(s, sep), sep) == s
  {
    if |s| > 0 {
      var rest := Split(s[1..], sep);
      JoinSplit(s[1..], sep);
      if s[0] == sep {
        assert Split(s, sep) == [""] + rest;
        assert ([""] + rest)[1..] == rest;
      } else {
        var parts := [[s[0]] + rest[0]] + rest[1..];
        assert Split(s, sep) == parts;
        if |rest| == 1 {
          assert Join(parts, sep) == [s[0]] + rest[0];
        } else {
          assert parts[1..] == rest[1..];
          assert Join(rest, sep) == rest[0] + [sep] + Join(rest[1..], sep);
        }
      }
    }
  }

  /** Splitting a join of separator-free fields gives the fields back. */
  lemma {:induction false} SplitJoin(parts: seq<string>, sep: char)
    requires |parts| >= 1
    requires forall i :: 0 <= i < |parts| ==> sep !in parts[i]
    ensures Split(Join(parts, sep), sep) == parts
    decreases |parts|, |parts[0]|
  {
    var head := parts[0];
    if |head| == 0 {
      if |parts| == 1 {
        assert Join(parts, sep) == "";
      } else {
        var tail := Join(parts[1..], sep);
        assert Join(parts, sep) == [sep] + tail;
        assert ([sep] + tail)[1..] == tail;
        SplitJoin(parts[1..], sep);
        assert [""] + parts[1..] == parts;
      }
    } else {
      var shorter := [head[1..]] + parts[1..];
      assert shorter[1..] == parts[1..];
      assert forall i :: 0 <= i < |shorter| ==> sep !in shorter[i] by {
        forall i | 0 <= i < |shorter| ensures sep !in shorter[i] {
          if i == 0 {
            assert forall c :: c in head[1..] ==> c in head;
          } else {
            assert shorter[i] == parts[i];
          }
        }
      }
      SplitJoin(shorter, sep);
      var whole := Join(parts, sep);
      assert head[0] != sep by { assert head[0] in head; }
      if |parts| == 1 {
        assert whole == head;
        assert whole[1..] == Join(shorter, sep);
      } else {
        assert whole == head + [sep] + Join(parts[1..], sep);
        assert whole[1..] == head[1..] + [sep] + Join(parts[1..], sep);
        assert whole[1..] == Join(shorter, sep);
      }
      assert whole[0] == head[0];
      assert [head[0]] + head[1..] == head;
      assert [head] + parts[1..] == parts;
    }
  }

  /** `s.StartsWith(prefix)` taken as an ordinal, character-by-character
      prefix test. */
  predicate StartsWith(s: string, prefix: string) {
    |prefix| <= |s| && s[..|prefix|] == prefix
  }

  /** `token.Split('/')[0]`: the text before the first `/`, or the whole token
      when it holds none. */
  function FirstField(token: string, sep: char): (f: string)
    ensures |f| <= |token| && f == token[..|f|]
    ensures sep !in f
    ensures |f| < |token| ==> token[|f|] == sep
  {
    FirstFieldIsPrefix(token, sep);
    Split(token, sep)[0]
  }

  /** A token without a separator is its own first field. */
  lemma FirstFieldWhole(token: string, sep: char)
    requires sep !in token
    ensures FirstField(token, sep) == token
  {
  }

  /** The first field of a split is the token up to its first separator. */
  lemma {:induction false} FirstFieldIsPrefix(token: string, sep: char)
    ensures var f := Split(token, sep)[0];
            |f| <= |token| && f == token[..|f|] && (|f| < |token| ==> token[|f|] == sep)
  {
    if |token| > 0 && token[0] != sep {
      FirstFieldIsPrefix(token[1..], sep);
      var rest := Split(token[1..], sep);
      assert Split(token, sep)[0] == [token[0]] + rest[0];
    }
  }
}
