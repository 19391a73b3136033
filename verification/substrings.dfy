// The search that strstr makes.

module Substrings {

  // strstr finds word in s.
  predicate Contains<T(==)>(s: seq<T>, word: seq<T>) {
    |word| <= |s| && (word <= s || (s != [] && Contains(s[1..], word)))
  }

  // It finds word exactly if word lies somewhere in s.
  lemma ContainsAt<T>(s: seq<T>, word: seq<T>)
    ensures Contains(s, word) <==> exists a, b :: s == a + word + b
  {
    if Contains(s, word) {
      var a, b := Found(s, word);
    }
    if a, b :| s == a + word + b {
      FoundAgain(a, word, b);
    }
  }

  lemma {:induction false} Found<T>(s: seq<T>, word: seq<T>) returns (a: seq<T>, b: seq<T>)
    requires Contains(s, word)
    ensures s == a + word + b
  {
    if word <= s {
      a, b := [], s[|word|..];
    } else {
      a, b := Found(s[1..], word);
      a := [s[0]] + a;
    }
  }

  lemma {:induction false} FoundAgain<T>(a: seq<T>, word: seq<T>, b: seq<T>)
    ensures Contains(a + word + b, word)
  {
    var s := a + word + b;
    if a == [] {
      assert s == word + b;
    } else {
      FoundAgain(a[1..], word, b);
      assert s[1..] == a[1..] + word + b;
    }
  }

  lemma {:induction false} NotWithoutFirst<T>(s: seq<T>, word: seq<T>)
    requires word != [] && word[0] !in s
    ensures !Contains(s, word)
  {
    if s != [] && |word| <= |s| {
      NotWithoutFirst(s[1..], word);
    }
  }
}
