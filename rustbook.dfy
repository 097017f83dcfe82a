/**
 * Exercises from the Rust book: the mode of a list of integers, Pig Latin,
 * and a company directory that files employees under departments.
 */
module RustBook {
  import opened Wrappers

  // ---------------------------------------------------------------------
  // mode
  // ---------------------------------------------------------------------

  /**
   * Counts every value in a map, then takes an entry with the largest count.
   * The map is visited in an order the caller cannot see, so on a tie any of
   * the most frequent values may come back.
   */
  method Mode(nums: seq<int>) returns (m: int)
    requires |nums| > 0
    ensures m in nums
    ensures forall x :: x in nums ==> multiset(nums)[x] <= multiset(nums)[m]
  {
    var counts: map<int, nat> := map[];
    for i := 0 to |nums|
      invariant forall j :: 0 <= j < i ==> nums[j] in counts
      invariant forall x :: x in counts ==> 0 < counts[x] == multiset(nums[..i])[x]
    {
      var num := nums[i];
      var val := if num in counts then counts[num] else 0;
      counts := counts[num := val + 1];
      assert nums[..i + 1] == nums[..i] + [num];
    }
    assert nums[..|nums|] == nums;
    assert nums[0] in counts;
    // `max_by_key` keeps the last entry among those with the largest count
    var unvisited := counts.Keys;
    var best: Option<int> := None;
    while |unvisited| > 0
      invariant unvisited <= counts.Keys
      invariant best.None? ==> unvisited == counts.Keys
      invariant best.Some? ==> best.value in counts
      invariant best.Some? ==> forall x :: x in counts && x !in unvisited ==> counts[x] <= counts[best.value]
      decreases unvisited
    {
      assert (forall x :: x !in unvisited) ==> unvisited == {};
      var k :| k in unvisited;
      if best.None? || counts[k] >= counts[best.value] {
        best := Some(k);
      }
      unvisited := unvisited - {k};
    }
    m := best.value;
  }

  // ---------------------------------------------------------------------
  // pig_latin
  // ---------------------------------------------------------------------

  /** Lower-case mapping, restricted to ASCII letters. */
  function ToLower(c: char): char {
    if 'A' <= c <= 'Z' then (c as int + 32) as char else c
  }

  predicate IsVowel(c: char) {
    c in "aeiou"
  }

  /**
   * A word whose (lower-cased) first letter is a vowel gets "-hay" appended;
   * any other word moves its lower-cased first letter to the end, after a
   * hyphen, and gets "ay".
   */
  function PigLatin(word: string): (r: string)
    requires |word| > 0
    ensures |r| == |word| + (if IsVowel(ToLower(word[0])) then 4 else 3)
    ensures r[|r| - 4] == '-' && r[|r| - 2..] == "ay"
    ensures r[|r| - 3] == if IsVowel(ToLower(word[0])) then 'h' else ToLower(word[0])
    ensures IsVowel(ToLower(word[0])) ==> r[..|word|] == word
    ensures !IsVowel(ToLower(word[0])) ==> r[..|word| - 1] == word[1..]
  {
    var first := ToLower(word[0]);
    if IsVowel(first) then word + "-hay" else word[1..] + "-" + [first] + "ay"
  }

  /** Moves the letter before the final "ay" back in front, dropping the hyphen. */
  function FromPigLatin(r: string): string
    requires |r| >= 4
  {
    [r[|r| - 3]] + r[..|r| - 4]
  }

  /** A word that starts with a vowel is kept whole, followed by "-hay". */
  lemma PigLatinVowelWord(word: string)
    requires |word| > 0 && IsVowel(ToLower(word[0]))
    ensures PigLatin(word)[..|word|] == word && PigLatin(word)[|word|..] == "-hay"
  {
  }

  /** A word that starts with a consonant already in lower case is recovered by `FromPigLatin`. */
  lemma PigLatinConsonantWord(word: string)
    requires |word| > 0 && !IsVowel(ToLower(word[0])) && ToLower(word[0]) == word[0]
    ensures FromPigLatin(PigLatin(word)) == word
  {
    var r := PigLatin(word);
    assert r[..|r| - 4] == word[1..];
    assert [word[0]] + word[1..] == word;
  }

  /**
   * No inverse exists: a word that starts with a vowel and the same word
   * with an 'h' in front ("at" and "hat") give the same result.
   */
  lemma PigLatinAmbiguous(word: string)
    requires |word| > 0 && IsVowel(word[0])
    ensures PigLatin(['h'] + word) == PigLatin(word)
  {
    assert (['h'] + word)[1..] == word;
  }

  // ---------------------------------------------------------------------
  // add_to_dept
  // ---------------------------------------------------------------------

  /** The bytes `u8::is_ascii_whitespace` accepts: space, tab, line feed, form feed, carriage return. */
  predicate IsAsciiWhitespace(c: char) {
    c == ' ' || c == '\t' || c == '\n' || c as int == 0x0C || c == '\r'
  }

  predicate NoWhitespace(w: string) {
    forall k :: 0 <= k < |w| ==> !IsAsciiWhitespace(w[k])
  }

  /** The longest prefix of `s` without whitespace. */
  function LeadingWord(s: string): (r: string)
    ensures |r| <= |s| && r == s[..|r|] && NoWhitespace(r)
    ensures |r| < |s| ==> IsAsciiWhitespace(s[|r|])
  {
    if s == [] || IsAsciiWhitespace(s[0]) then [] else [s[0]] + LeadingWord(s[1..])
  }

  /** `str::split_ascii_whitespace`: the non-empty runs of non-whitespace characters, in order. */
  function Words(s: string): (r: seq<string>)
    ensures forall i :: 0 <= i < |r| ==> r[i] != [] && NoWhitespace(r[i])
    decreases |s|
  {
    if s == [] then []
    else if IsAsciiWhitespace(s[0]) then Words(s[1..])
    else
      var w := LeadingWord(s);
      [w] + Words(s[|w|..])
  }

  /** Words joined by single spaces. */
  function Unwords(ws: seq<string>): string {
    if ws == [] then [] else if |ws| == 1 then ws[0] else ws[0] + " " + Unwords(ws[1..])
  }

  lemma {:induction false} LeadingWordOf(w: string, rest: string)
    requires NoWhitespace(w) && (rest == [] || IsAsciiWhitespace(rest[0]))
    ensures LeadingWord(w + rest) == w
  {
    if w != [] {
      assert (w + rest)[1..] == w[1..] + rest;
      LeadingWordOf(w[1..], rest);
      assert [w[0]] + w[1..] == w;
    } else {
      assert w + rest == rest;
    }
  }

  /** Splitting words joined by spaces gives the words back. */
  lemma {:induction false} WordsUnwords(ws: seq<string>)
    requires forall i :: 0 <= i < |ws| ==> ws[i] != [] && NoWhitespace(ws[i])
    ensures Words(Unwords(ws)) == ws
  {
    if ws == [] {
    } else if |ws| == 1 {
      LeadingWordOf(ws[0], []);
      assert ws[0] + [] == ws[0];
      assert ws[0][|ws[0]|..] == [];
    } else {
      var s := Unwords(ws);
      var rest := " " + Unwords(ws[1..]);
      assert s == ws[0] + rest;
      LeadingWordOf(ws[0], rest);
      assert s[|ws[0]|..] == rest;
      assert rest[1..] == Unwords(ws[1..]);
      WordsUnwords(ws[1..]);
      assert [ws[0]] + ws[1..] == ws;
    }
  }

  /** `String`'s ordering: lexicographic by characters, a proper prefix first. */
  predicate Less(a: string, b: string)
    ensures Less(a, b) ==> a != b
  {
    if a == [] then b != []
    else if b == [] then false
    else a[0] < b[0] || (a[0] == b[0] && Less(a[1..], b[1..]))
  }

  lemma {:induction false} LessIrreflexive(a: string)
    ensures !Less(a, a)
  {
    if a != [] {
      LessIrreflexive(a[1..]);
    }
  }

  lemma {:induction false} LessAsymmetric(a: string, b: string)
    requires Less(a, b)
    ensures !Less(b, a)
  {
    if a != [] && b != [] && a[0] == b[0] {
      LessAsymmetric(a[1..], b[1..]);
    }
  }

  lemma {:induction false} LessTransitive(a: string, b: string, c: string)
    requires Less(a, b) && Less(b, c)
    ensures Less(a, c)
  {
    if a != [] && b != [] && c != [] && a[0] == b[0] == c[0] {
      LessTransitive(a[1..], b[1..], c[1..]);
    }
  }

  lemma {:induction false} LessTotal(a: string, b: string)
    ensures a == b || Less(a, b) || Less(b, a)
  {
    if a != [] && b != [] && a[0] == b[0] {
      LessTotal(a[1..], b[1..]);
      if a[1..] == b[1..] {
        assert a == [a[0]] + a[1..] && b == [b[0]] + b[1..];
      }
    }
  }

  /** Strictly increasing: sorted and free of duplicates. */
  predicate Sorted(v: seq<string>) {
    forall i, j :: 0 <= i < j < |v| ==> Less(v[i], v[j])
  }

  /**
   * `slice::binary_search`: `Ok` with the index of an element equal to
   * `name`, or `Err` with the index where `name` could be inserted.
   */
  method BinarySearch(v: seq<string>, name: string) returns (r: Result<nat, nat>)
    ensures r.Ok? ==> r.value < |v| && v[r.value] == name
    ensures r.Err? ==> r.error <= |v|
    ensures Sorted(v) ==> (r.Ok? <==> name in v)
    ensures Sorted(v) && r.Err? ==>
      && (forall k :: 0 <= k < r.error ==> Less(v[k], name))
      && (forall k :: r.error <= k < |v| ==> Less(name, v[k]))
  {
    var lo, hi := 0, |v|;
    while lo < hi
      invariant 0 <= lo <= hi <= |v|
      invariant Sorted(v) ==> forall k :: 0 <= k < lo ==> Less(v[k], name)
      invariant Sorted(v) ==> forall k :: hi <= k < |v| ==> !Less(v[k], name)
    {
      var mid := (lo + hi) / 2;
      if Less(v[mid], name) {
        if Sorted(v) {
          forall k | 0 <= k < mid ensures Less(v[k], name) {
            LessTransitive(v[k], v[mid], name);
          }
        }
        lo := mid + 1;
      } else {
        if Sorted(v) {
          forall k | mid < k < |v| ensures !Less(v[k], name) {
            if Less(v[k], name) {
              LessTransitive(v[mid], v[k], name);
            }
          }
        }
        hi := mid;
      }
    }
    if lo < |v| && v[lo] == name {
      return Ok(lo);
    }
    if Sorted(v) {
      if lo < |v| {
        LessTotal(v[lo], name);
        forall k | lo < k < |v| ensures Less(name, v[k]) {
          LessTransitive(name, v[lo], v[k]);
        }
      }
      forall k | 0 <= k < |v| ensures v[k] != name {
        if v[k] == name {
          LessIrreflexive(name);
        }
      }
    }
    return Err(lo);
  }

  /** Inserting a name between the smaller and the larger names keeps a list sorted. */
  lemma InsertSorted(v: seq<string>, i: nat, name: string)
    requires Sorted(v) && i <= |v|
    requires forall k :: 0 <= k < i ==> Less(v[k], name)
    requires forall k :: i <= k < |v| ==> Less(name, v[k])
    ensures Sorted(v[..i] + [name] + v[i..])
  {
    var w := v[..i] + [name] + v[i..];
    forall a, b | 0 <= a < b < |w| ensures Less(w[a], w[b]) {
      if b < i || a > i {
        assert w[a] == v[if a < i then a else a - 1] && w[b] == v[if b < i then b else b - 1];
      }
    }
  }

  /**
   * Reads "Add <name> to <department>" (only the second and fourth words
   * matter) and files the name under the department, keeping each
   * department's list in order.
   */
  method AddToDept(instruction: string, dept: map<string, seq<string>>) returns (result: map<string, seq<string>>)
    requires |Words(instruction)| >= 4
    ensures var name, department := Words(instruction)[1], Words(instruction)[3];
      && result.Keys == dept.Keys + {department}
      && (forall d :: d in dept && d != department ==> result[d] == dept[d])
      && (department !in dept ==> result[department] == [name])
      && name in result[department]
      && (department in dept ==> multiset(dept[department]) <= multiset(result[department]))
    ensures var name, department := Words(instruction)[1], Words(instruction)[3];
      department in dept && Sorted(dept[department]) ==>
        && (name in dept[department] ==> result == dept)
        && Sorted(result[department])
        && multiset(result[department]) ==
             multiset(dept[department]) + (if name in dept[department] then multiset{} else multiset{name})
    ensures (forall d :: d in dept ==> Sorted(dept[d])) ==> (forall d :: d in result ==> Sorted(result[d]))
  {
    var instructions := Words(instruction);
    var name := instructions[1];
    var department := instructions[3];
    if department in dept {
      var v := dept[department];
      var found := BinarySearch(v, name);
      match found {
        case Ok(_) =>
          result := dept;
        case Err(index) =>
          var w := v[..index] + [name] + v[index..];
          assert v == v[..index] + v[index..];
          if Sorted(v) {
            InsertSorted(v, index, name);
          }
          result := dept[department := w];
      }
    } else {
      result := dept[department := [name]];
    }
  }
}
