/** The Python `str` behaviour the dashboard depends on: `str.replace`, the
    slice `s[0:-2]`, and `str.split`/`str.join`, which give `replace` an
    independent description. */
module PyStr {

  /** `sub in s`: some suffix of `s` starts with `sub`. The empty string
      occurs in every string, as in Python. */
  predicate Occurs(sub: string, s: string) {
    exists i | 0 <= i <= |s| :: sub <= s[i..]
  }

  /** `list(s)`: the characters of `s`, each as a one-character string. */
  function Chars(s: string): (cs: seq<string>)
    ensures |cs| == |s|
  {
    seq(|s|, i requires 0 <= i < |s| => [s[i]])
  }

  /** `s.replace(target, repl)`: scanning left to right, every
      non-overlapping occurrence of `target` is replaced by `repl`. An empty
      `target` matches before every character and at the end, which is
      `repl.join(['', *s, ''])`. */
  function Replace(s: string, target: string, repl: string): (r: string)
    ensures target == [] ==> r == Join(repl, [[]] + Chars(s) + [[]])
    decreases |s|
  {
    if target == [] then
      if s == [] then
        assert [[]] + Chars(s) + [[]] == [[], []];
        repl
      else
        JoinAroundChars(s, repl);
        repl + [s[0]] + Replace(s[1..], target, repl)
    else if s == [] then []
    else if target <= s then repl + Replace(s[|target|..], target, repl)
    else [s[0]] + Replace(s[1..], target, repl)
  }

  /** `s.split(sep)` for a non-empty separator (Python raises on an empty one).
      The first piece is a prefix of `s`, and no piece contains `sep`. Every
      cut is at the leftmost occurrence still available: the first piece,
      when a separator follows it, ends where that separator starts, and no
      occurrence of `sep` begins inside any piece that a separator follows,
      not even one running into that separator. */
  function Split(s: string, sep: string): (parts: seq<string>)
    requires sep != []
    ensures |parts| >= 1
    ensures parts[0] <= s
    ensures |parts| > 1 ==> parts[0] + sep <= s
    ensures forall i | 0 <= i < |parts| :: !Occurs(sep, parts[i])
    ensures forall k | 0 <= k < |parts| - 1 :: !Occurs(sep, parts[k] + sep[..|sep| - 1])
    decreases |s|
  {
    if s == [] then
      ShorterNoOccurrence(sep, []);
      [[]]
    else if sep <= s then
      var rest := Split(s[|sep|..], sep);
      ShorterNoOccurrence(sep, []);
      ShorterNoOccurrence(sep, [] + sep[..|sep| - 1]);
      assert [] + sep <= s;
      assert forall i | 1 <= i < |rest| + 1 :: ([[]] + rest)[i] == rest[i - 1];
      [[]] + rest
    else
      var rest := Split(s[1..], sep);
      var head := [s[0]] + rest[0];
      assert head <= s by {
        assert s == [s[0]] + s[1..];
      }
      assert !(sep <= head);
      NoOccurrenceCons(sep, s[0], rest[0]);
      if |rest| > 1 then
        CutExtends(s, sep, rest[0]);
        assert forall i | 1 <= i < |rest| :: ([head] + rest[1..])[i] == rest[i];
        [head] + rest[1..]
      else
        [head]
  }

  /** The cut after the first piece carries over from `s[1..]` to `s` when
      `s` does not start with the separator. */
  lemma CutExtends(s: string, sep: string, piece: string)
    requires s != [] && sep != [] && !(sep <= s)
    requires piece + sep <= s[1..]
    requires !Occurs(sep, piece + sep[..|sep| - 1])
    ensures [s[0]] + piece + sep <= s
    ensures !Occurs(sep, [s[0]] + piece + sep[..|sep| - 1])
  {
    var short := sep[..|sep| - 1];
    assert s == [s[0]] + s[1..];
    assert [s[0]] + piece + sep == [s[0]] + (piece + sep);
    assert [s[0]] + piece + short <= s;
    assert [s[0]] + piece + short == [s[0]] + (piece + short);
    NoOccurrenceCons(sep, s[0], piece + short);
  }

  /** A string shorter than `sub` does not contain it. */
  lemma ShorterNoOccurrence(sub: string, t: string)
    requires |t| < |sub|
    ensures !Occurs(sub, t)
  {
  }

  /** A string `[c] + t` that does not start with `sub` contains `sub` only
      if `t` does. */
  lemma NoOccurrenceCons(sub: string, c: char, t: string)
    requires !(sub <= [c] + t) && !Occurs(sub, t)
    ensures !Occurs(sub, [c] + t)
  {
    forall i | 0 <= i <= |t| + 1 ensures !(sub <= ([c] + t)[i..]) {
      if i > 0 {
        assert ([c] + t)[i..] == t[i - 1..];
      }
    }
  }

  /** `sep.join(parts)`. */
  function Join(sep: string, parts: seq<string>): string
  {
    if parts == [] then []
    else if |parts| == 1 then parts[0]
    else parts[0] + sep + Join(sep, parts[1..])
  }

  /** The slice `s[0:-2]`: `s` without its last two characters, and empty
      when `s` has at most two. */
  function DropLastTwo(s: string): (r: string)
    ensures r <= s
    ensures |r| == if |s| <= 2 then 0 else |s| - 2
  {
    if |s| <= 2 then [] else s[..|s| - 2]
  }

  lemma {:induction false} JoinCons(sep: string, p: string, parts: seq<string>)
    requires |parts| >= 1
    ensures Join(sep, [p] + parts) == p + sep + Join(sep, parts)
  {
    assert ([p] + parts)[1..] == parts;
  }

  /** The step of `repl.join(['', *s, ''])` that peels off the first character. */
  lemma JoinAroundChars(s: string, repl: string)
    requires s != []
    ensures Join(repl, [[]] + Chars(s) + [[]]) == repl + [s[0]] + Join(repl, [[]] + Chars(s[1..]) + [[]])
  {
    var tail := Chars(s[1..]) + [[]];
    assert Chars(s) + [[]] == [[s[0]]] + tail;
    assert [[]] + Chars(s) + [[]] == [[]] + ([[s[0]]] + tail);
    JoinCons(repl, [], [[s[0]]] + tail);
    JoinCons(repl, [s[0]], tail);
    assert [[]] + Chars(s[1..]) + [[]] == [[]] + tail;
    JoinCons(repl, [], tail);
  }

  /** `replace` agrees with Python's identity
      `s.replace(t, r) == r.join(s.split(t))` for every non-empty `t`. */
  lemma {:induction false} ReplaceIsJoinOfSplit(s: string, target: string, repl: string)
    requires target != []
    ensures Replace(s, target, repl) == Join(repl, Split(s, target))
    decreases |s|
  {
    if s == [] {
    } else if target <= s {
      var tail := s[|target|..];
      var rest := Split(tail, target);
      assert Split(s, target) == [[]] + rest;
      assert Replace(s, target, repl) == repl + Replace(tail, target, repl);
      ReplaceIsJoinOfSplit(tail, target, repl);
      JoinCons(repl, [], rest);
    } else {
      var rest := Split(s[1..], target);
      var head := [s[0]] + rest[0];
      assert Split(s, target) == [head] + rest[1..];
      assert Replace(s, target, repl) == [s[0]] + Replace(s[1..], target, repl);
      ReplaceIsJoinOfSplit(s[1..], target, repl);
      JoinPrepend(repl, s[0], rest);
    }
  }

  /** Gluing a character onto the first piece glues it onto the joined string. */
  lemma JoinPrepend(sep: string, c: char, parts: seq<string>)
    requires |parts| >= 1
    ensures Join(sep, [[c] + parts[0]] + parts[1..]) == [c] + Join(sep, parts)
  {
    if |parts| > 1 {
      assert parts == [parts[0]] + parts[1..];
      JoinCons(sep, parts[0], parts[1..]);
      JoinCons(sep, [c] + parts[0], parts[1..]);
    }
  }

  /** Replacing a non-empty string by itself changes nothing. */
  lemma {:induction false} ReplaceBySelf(s: string, target: string)
    requires target != []
    ensures Replace(s, target, target) == s
    decreases |s|
  {
    if s != [] {
      if target <= s {
        ReplaceBySelf(s[|target|..], target);
        assert s == target + s[|target|..];
      } else {
        ReplaceBySelf(s[1..], target);
        assert s == [s[0]] + s[1..];
      }
    }
  }

  /** Joining the pieces of a split with the same separator gives the string back. */
  lemma SplitJoinRoundTrip(s: string, sep: string)
    requires sep != []
    ensures Join(sep, Split(s, sep)) == s
  {
    ReplaceIsJoinOfSplit(s, sep, sep);
    ReplaceBySelf(s, sep);
  }

  /** A string in which `target` does not occur comes back unchanged. */
  lemma {:induction false} ReplaceAbsent(s: string, target: string, repl: string)
    requires !Occurs(target, s)
    ensures Replace(s, target, repl) == s
    decreases |s|
  {
    assert target <= s[0..] ==> Occurs(target, s);
    assert s[0..] == s;
    if s != [] {
      assert !Occurs(target, s[1..]) by {
        forall i | 0 <= i <= |s[1..]| ensures !(target <= s[1..][i..]) {
          assert s[1..][i..] == s[i + 1..];
        }
      }
      ReplaceAbsent(s[1..], target, repl);
    }
  }

  /** When the whole string is the target, the result is the replacement. */
  lemma ReplaceWhole(target: string, repl: string)
    requires target != []
    ensures Replace(target, target, repl) == repl
  {
    assert target[|target|..] == [];
  }

  /** An empty target inserts the replacement before every character and at
      the end: `|s| + 1` copies of it. */
  lemma {:induction false} ReplaceEmptyTargetLength(s: string, repl: string)
    ensures |Replace(s, [], repl)| == |s| + (|s| + 1) * |repl|
    decreases |s|
  {
    if s != [] {
      ReplaceEmptyTargetLength(s[1..], repl);
      assert (|s| + 1) * |repl| == |repl| + |s| * |repl|;
    }
  }

  /** Overlapping occurrences are cut leftmost first: `"aaa".split("aa")` is
      `["", "a"]`, so `"aaa".replace("aa", "X")` is `"Xa"`. */
  lemma OverlapExample()
    ensures Split("aaa", "aa") == ["", "a"]
    ensures Replace("aaa", "aa", "X") == "Xa"
  {
    assert "aa" <= "aaa";
    assert "aaa"[2..] == "a";
    assert !("aa" <= "a");
    assert "a"[1..] == "";
    assert Split("a"[1..], "aa") == [[]];
    assert ["a"[0]] + [] == "a";
    assert Split("a", "aa") == ["a"];
  }
}
