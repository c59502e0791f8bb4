/** How the Snips handler turns an `intentName` into the intent type it
    dispatches: user-defined intents (`user_<id>__<name>`) are split on `__`,
    every other name on `:`, and the last part is kept. */
module IntentTypes {
  import opened PyStrings

  const UserPrefix: string := "user_"
  const UserSeparator: string := "__"
  const NamespaceSeparator: string := ":"

  /** The separator the handler splits a given intent name on. */
  function SeparatorFor(intentName: string): (sep: string)
    ensures |sep| > 0
  {
    if StartsWith(intentName, UserPrefix) then UserSeparator else NamespaceSeparator
  }

  /** `intentName.split(sep)[-1]` with the separator chosen by the prefix. */
  function IntentType(intentName: string): string
  {
    LastPart(intentName, SeparatorFor(intentName))
  }

  /** The intent type is a suffix of the name, holds no separator, and is
      either the whole name or follows a separator. */
  lemma IntentTypeIsLastSegment(intentName: string)
    ensures IsLastSegment(intentName, SeparatorFor(intentName), IntentType(intentName))
  {
    LastPartIsLastSegment(intentName, SeparatorFor(intentName));
  }

  /** The text after the last occurrence of `c`, or all of `s` when `c` does
      not occur: an independent definition that reads `s` from the end. */
  function AfterLastChar(s: string, c: char): string
  {
    if |s| == 0 then ""
    else if s[|s| - 1] == c then ""
    else AfterLastChar(s[..|s| - 1], c) + [s[|s| - 1]]
  }

  /** For a one-character separator, containment is membership. */
  lemma ContainsChar(s: string, c: char)
    ensures Contains(s, [c]) <==> c in s
  {
    if c in s {
      var i :| 0 <= i < |s| && s[i] == c;
      assert OccursAt(s, [c], i);
    }
    forall i | 0 <= i <= |s| && OccursAt(s, [c], i) ensures c in s {
      OccursAtFirstChar(s, [c], i);
    }
  }

  /** `OccursAt` for a one-character separator is a test of one index. */
  lemma OccursAtChar(s: string, c: char, i: int)
    ensures OccursAt(s, [c], i) <==> 0 <= i < |s| && s[i] == c
  {
    if OccursAt(s, [c], i) {
      OccursAtFirstChar(s, [c], i);
    }
  }

  /** Appending a character other than `c` extends the last segment by it. */
  lemma LastSegmentAppend(s: string, c: char, r: string)
    requires |s| > 0 && s[|s| - 1] != c && IsLastSegment(s[..|s| - 1], [c], r)
    ensures IsLastSegment(s, [c], r + [s[|s| - 1]])
  {
    var p, x := s[..|s| - 1], s[|s| - 1];
    assert s == p + [x];
    ContainsChar(p, c);
    ContainsChar(r, c);
    ContainsChar(s, c);
    ContainsChar(r + [x], c);
    assert s[|s| - |r| - 1..] == p[|p| - |r|..] + [x];
    assert (c in s) == (c in p);
    assert (c in r + [x]) == (c in r);
    if c in p {
      OccursAtChar(p, c, |p| - |r| - 1);
      OccursAtChar(s, c, |s| - |r| - 2);
    }
  }

  /** The independent definition meets the same description as the split. */
  lemma {:induction false} AfterLastCharIsLastSegment(s: string, c: char)
    ensures IsLastSegment(s, [c], AfterLastChar(s, c))
    decreases |s|
  {
    if |s| == 0 {
      ContainsChar(s, c);
    } else if s[|s| - 1] == c {
      ContainsChar(s, c);
      ContainsChar("", c);
      OccursAtChar(s, c, |s| - 1);
    } else {
      AfterLastCharIsLastSegment(s[..|s| - 1], c);
      LastSegmentAppend(s, c, AfterLastChar(s[..|s| - 1], c));
    }
  }

  /** For a one-character separator the description fixes the segment. */
  lemma LastSegmentOfCharIsUnique(s: string, c: char, r1: string, r2: string)
    requires IsLastSegment(s, [c], r1) && IsLastSegment(s, [c], r2)
    ensures r1 == r2
  {
    ContainsChar(s, c);
    ContainsChar(r1, c);
    ContainsChar(r2, c);
    if c in s {
      OccursAtChar(s, c, |s| - |r1| - 1);
      OccursAtChar(s, c, |s| - |r2| - 1);
    }
  }

  /** A name without the `user_` prefix yields exactly the text after its
      last `:`, and the whole name when it has no `:`. */
  lemma NamespacedIntentType(intentName: string)
    requires !StartsWith(intentName, UserPrefix)
    ensures IntentType(intentName) == AfterLastChar(intentName, ':')
    ensures ':' !in intentName ==> IntentType(intentName) == intentName
  {
    assert NamespaceSeparator == [':'];
    IntentTypeIsLastSegment(intentName);
    AfterLastCharIsLastSegment(intentName, ':');
    LastSegmentOfCharIsUnique(intentName, ':', IntentType(intentName), AfterLastChar(intentName, ':'));
    ContainsChar(intentName, ':');
  }

  /** A text without underscores holds no double underscore. */
  lemma NoUnderscoreNoSeparator(t: string)
    requires '_' !in t
    ensures !Contains(t, UserSeparator)
  {
    forall j | 0 <= j <= |t| && OccursAt(t, UserSeparator, j) ensures false {
      OccursAtFirstChar(t, UserSeparator, j);
    }
  }

  /** An occurrence carries the separator's second character one place on. */
  lemma OccursAtSecondChar(s: string, sep: string, i: int)
    requires |sep| >= 2 && OccursAt(s, sep, i)
    ensures s[i + 1] == sep[1]
  {
  }

  /** An occurrence in `s` past `lo` is an occurrence in `s[lo..]`. */
  lemma OccursInTail(s: string, lo: nat, sep: string, j: nat)
    requires lo <= j && OccursAt(s, sep, j)
    ensures OccursAt(s[lo..], sep, j - lo)
  {
  }

  /** In `user_<id>__<name>` with an id free of underscores, the first `__`
      is the one after the id. */
  lemma UserIntentSeparatorAt(id: string, name: string)
    requires |id| > 0 && '_' !in id
    ensures var s := UserPrefix + id + UserSeparator + name;
            && OccursAt(s, UserSeparator, 5 + |id|)
            && forall j :: 0 <= j < 5 + |id| ==> !OccursAt(s, UserSeparator, j)
  {
    var sep := UserSeparator;
    var s := UserPrefix + id + sep + name;
    var p := 5 + |id|;
    forall j | 0 <= j < p ensures !OccursAt(s, sep, j) {
      if j < 4 {
        assert s[j] == UserPrefix[j];
      } else if j == 4 {
        assert s[j + 1] == id[0];
      } else {
        assert s[j] == id[j - 5];
      }
      if OccursAt(s, sep, j) {
        OccursAtFirstChar(s, sep, j);
        OccursAtSecondChar(s, sep, j);
      }
    }
    forall k | 0 <= k < |sep| ensures s[p + k] == sep[k] {
    }
  }

  /** A user intent named `user_<id>__<name>`, with a non-empty id free of
      underscores and a name free of `__`, has intent type `name`. */
  lemma UserIntentType(id: string, name: string)
    requires |id| > 0 && '_' !in id && !Contains(name, UserSeparator)
    ensures IntentType(UserPrefix + id + UserSeparator + name) == name
  {
    var sep := UserSeparator;
    var s := UserPrefix + id + sep + name;
    var p := 5 + |id|;
    assert StartsWith(s, UserPrefix) by { assert s[..5] == UserPrefix; }
    UserIntentSeparatorAt(id, name);
    forall j | p + 2 <= j ensures !OccursAt(s, sep, j) {
      if OccursAt(s, sep, j) {
        OccursInTail(s, p + 2, sep, j);
      }
    }
    LastPartAfterOnly(s, sep, p);
    assert s[p + 2..] == name;
  }

  /** `user_ABCDEF123__Lights` gives `Lights`. */
  lemma UserIntentExample()
    ensures IntentType("user_ABCDEF123__Lights") == "Lights"
  {
    assert "user_ABCDEF123__Lights" == UserPrefix + "ABCDEF123" + UserSeparator + "Lights";
    NoUnderscoreNoSeparator("Lights");
    UserIntentType("ABCDEF123", "Lights");
  }

  /** A name `<prefix>:<last>` without the `user_` prefix and with no `:` in
      `last` has intent type `last`. */
  lemma NamespacedIntentTypeOf(prefix: string, last: string)
    requires !StartsWith(prefix + NamespaceSeparator + last, UserPrefix) && ':' !in last
    ensures IntentType(prefix + NamespaceSeparator + last) == last
  {
    var s := prefix + NamespaceSeparator + last;
    var n := |prefix|;
    assert s[n + 1..] == last && s[n] == ':';
    ContainsChar(s, ':');
    ContainsChar(last, ':');
    OccursAtChar(s, ':', n);
    assert IsLastSegment(s, [':'], last);
    IntentTypeIsLastSegment(s);
    LastSegmentOfCharIsUnique(s, ':', IntentType(s), last);
  }

  /** `username:Lights` gives `Lights`: it does not start with `user_`. */
  lemma NamespacedIntentExample()
    ensures IntentType("username:Lights") == "Lights"
  {
    assert "username:Lights" == "username" + NamespaceSeparator + "Lights";
    assert "username:Lights"[..5] == "usern";
    NamespacedIntentTypeOf("username", "Lights");
  }

  /** A name without the `user_` prefix and without `:` is its own intent type. */
  lemma PlainIntentType(intentName: string)
    requires !StartsWith(intentName, UserPrefix) && ':' !in intentName
    ensures IntentType(intentName) == intentName
  {
    assert NamespaceSeparator == [':'];
    IntentTypeIsLastSegment(intentName);
    ContainsChar(intentName, ':');
  }

  /** A name that differs from `user_` at some position within it does not
      start with `user_`. */
  lemma DiffersFromUserPrefix(intentName: string, k: nat)
    requires k < |UserPrefix| && k < |intentName| && intentName[k] != UserPrefix[k]
    ensures !StartsWith(intentName, UserPrefix)
  {
  }

  /** A plain name such as `Lights` is its own intent type. */
  lemma PlainIntentExample()
    ensures IntentType("Lights") == "Lights"
  {
    assert "Lights"[..5][0] != UserPrefix[0];
    PlainIntentType("Lights");
  }

  /** An underscore followed by underscore-free text holds no `__`. */
  lemma LeadingUnderscoreNoSeparator(x: string)
    requires '_' !in x
    ensures !Contains("_" + x, UserSeparator)
  {
    var t := "_" + x;
    forall j | 0 <= j <= |t| && OccursAt(t, UserSeparator, j) ensures false {
      OccursAtSecondChar(t, UserSeparator, j);
    }
  }

  /** Three underscores in a row: the split takes the first two as the
      separator, so `user_<id>___<x>` gives `_<x>`. */
  lemma OverlappingSeparator(id: string, x: string)
    requires |id| > 0 && '_' !in id && '_' !in x
    ensures IntentType(UserPrefix + id + UserSeparator + ("_" + x)) == "_" + x
  {
    LeadingUnderscoreNoSeparator(x);
    UserIntentType(id, "_" + x);
  }

  /** Yet `<x>` alone also follows a `__` and holds none, so being a
      separator-free suffix after a separator does not by itself fix the
      intent type of a user intent. */
  lemma OverlappingSuffixIsLastSegment(id: string, x: string)
    requires '_' !in x
    ensures IsLastSegment(UserPrefix + id + UserSeparator + ("_" + x), UserSeparator, x)
  {
    var sep := UserSeparator;
    var s := UserPrefix + id + sep + ("_" + x);
    var p := 5 + |id|;
    NoUnderscoreNoSeparator(x);
    assert s[|s| - |x|..] == x;
    assert s[p + 1] == '_' && s[p + 2] == '_';
    forall k | 0 <= k < |sep| ensures s[p + 1 + k] == sep[k] {
    }
    assert OccursAt(s, sep, |s| - |x| - |sep|);
  }
}
