/**
 * The names of Redis keys: prefix:[blogId:]group:key, and the memo of their group parts.
 *
 * Main results: a key name determines scope, group and key for colon-free groups when no
 * global group is a numeral (KeysAreUnambiguous), and a memo entry can never be taken for
 * another scope or group (MemoKeysAreUnambiguous).
 */
module CacheKeys {
  import opened Strings

  const PREFIX_LENGTH := 32

  predicate PrefixChar(c: char) {
    'a' <= c <= 'z' || 'A' <= c <= 'Z' || '0' <= c <= '9' || c == '_' || c == '-'
  }

  /** What sanitizePrefix yields. */
  predicate IsPrefix(p: string) {
    0 < |p| <= PREFIX_LENGTH && forall c :: c in p ==> PrefixChar(c)
  }

  function SanitizePrefix(raw: string): (p: string)
    ensures IsPrefix(p)
    ensures IsPrefix(raw) ==> p == raw
  {
    var cleaned := seq(|raw|, i requires 0 <= i < |raw| => if PrefixChar(raw[i]) then raw[i] else '_');
    var cut := if |cleaned| > PREFIX_LENGTH then cleaned[..PREFIX_LENGTH] else cleaned;
    if cut != "" then cut else "wpmgr"
  }

  function NormalizeGroup(group: string): (g: string)
    ensures g != "" && g != "0"
  {
    var t := Trim(group);
    if t != "" && t != "0" then t else "default"
  }

  /** The normal form is the group without its surrounding blanks, or "default" when that is "" or "0". */
  lemma GroupIsTrimmedText(group: string, t: string)
    requires IsTrimmed(group, t)
    ensures NormalizeGroup(group) == if t == "" || t == "0" then "default" else t
  {
    TrimmedIsTrim(group, t);
  }

  /** Every group has such a text, and one without surrounding blanks is its own. */
  lemma CleanGroupStays(group: string)
    ensures exists t :: IsTrimmed(group, t)
    ensures group != "" && group != "0" && group[0] !in BLANKS && group[|group| - 1] !in BLANKS ==> NormalizeGroup(group) == group
  {
    TrimRemovesBlanks(group);
    if group != "" && group[0] !in BLANKS && group[|group| - 1] !in BLANKS {
      assert IsTrimmedAt(group, group, 0, |group|);
      TrimmedIsTrim(group, group);
    }
  }

  /** The prefix in use, character by character: unsafe ones become "_", and 32 are kept. */
  lemma PrefixCharacters(raw: string)
    requires raw != ""
    ensures var p := SanitizePrefix(raw);
            && |p| == (if |raw| < PREFIX_LENGTH then |raw| else PREFIX_LENGTH)
            && forall i :: 0 <= i < |p| ==>
                 p[i] == if 'a' <= raw[i] <= 'z' || 'A' <= raw[i] <= 'Z' || '0' <= raw[i] <= '9' || raw[i] == '_' || raw[i] == '-'
                         then raw[i] else '_'
    ensures SanitizePrefix("") == "wpmgr"
  {
  }

  datatype Scope = Global | Blog(id: int)

  /** The part of a key name before the key itself. */
  function GroupPart(prefix: string, scope: Scope, group: string): string {
    match scope
    case Global => prefix + ":" + group + ":"
    case Blog(id) => prefix + ":" + Decimal(id) + ":" + group + ":"
  }

  function KeyName(prefix: string, scope: Scope, group: string, key: string): string {
    GroupPart(prefix, scope, group) + key
  }

  lemma PrefixHasNoColon(p: string)
    requires IsPrefix(p)
    ensures ':' !in p
  {
  }

  lemma {:induction false} DecimalHasNoColon(n: int)
    ensures ':' !in Decimal(n)
    decreases n < 0, if n < 0 then -n else n
  {
    if n < 0 {
      DecimalHasNoColon(-n);
    } else if n >= 10 {
      DecimalHasNoColon(n / 10);
    }
  }

  /** The colon-delimited segments of a key name whose group has no colon. */
  lemma {:induction false} Segments(prefix: string, scope: Scope, group: string, key: string)
    requires IsPrefix(prefix) && ':' !in group
    ensures Split(KeyName(prefix, scope, group, key), ':')
         == [prefix] + (if scope.Blog? then [Decimal(scope.id)] else []) + [group] + Split(key, ':')
  {
    PrefixHasNoColon(prefix);
    match scope
    case Global =>
      SplitTwo(prefix, group, key);
      assert KeyName(prefix, scope, group, key) == prefix + ":" + (group + ":" + key);
    case Blog(id) =>
      DecimalHasNoColon(id);
      BlogSegments(prefix, Decimal(id), group, key);
      assert KeyName(prefix, scope, group, key) == prefix + ":" + (Decimal(id) + ":" + (group + ":" + key));
  }

  lemma SplitTwo(a: string, b: string, tail: string)
    requires ':' !in a && ':' !in b
    ensures Split(a + ":" + (b + ":" + tail), ':') == [a] + [b] + Split(tail, ':')
  {
    SplitSegment(b, tail);
    SplitSegment(a, b + ":" + tail);
  }

  lemma BlogSegments(prefix: string, id: string, group: string, key: string)
    requires ':' !in prefix && ':' !in id && ':' !in group
    ensures Split(prefix + ":" + (id + ":" + (group + ":" + key)), ':') == [prefix] + [id] + [group] + Split(key, ':')
  {
    SplitTwo(id, group, key);
    SplitSegment(prefix, id + ":" + (group + ":" + key));
  }

  lemma {:induction false} SplitSegment(head: string, tail: string)
    requires ':' !in head
    ensures Split(head + ":" + tail, ':') == [head] + Split(tail, ':')
  {
    SplitOfFree(head, ':');
    SplitOfConcat(head, tail, ':');
  }

  lemma {:induction false} SplitIsInjective(a: string, b: string)
    requires Split(a, ':') == Split(b, ':')
    ensures a == b
  {
    JoinOfSplit(a, ':');
    JoinOfSplit(b, ':');
  }

  ghost predicate IsNumeral(g: string) {
    exists n: int :: g == Decimal(n)
  }

  /** Names of keys determine what they name. */
  lemma {:induction false} KeysAreUnambiguous(prefix: string, s1: Scope, g1: string, k1: string, s2: Scope, g2: string, k2: string)
    requires IsPrefix(prefix) && ':' !in g1 && ':' !in g2
    requires s1.Global? ==> !IsNumeral(g1)
    requires s2.Global? ==> !IsNumeral(g2)
    requires KeyName(prefix, s1, g1, k1) == KeyName(prefix, s2, g2, k2)
    ensures s1 == s2 && g1 == g2 && k1 == k2
  {
    Segments(prefix, s1, g1, k1);
    Segments(prefix, s2, g2, k2);
    var parts := Split(KeyName(prefix, s1, g1, k1), ':');
    if s1.Blog? && s2.Blog? {
      assert parts[1] == Decimal(s1.id) == Decimal(s2.id);
      DecimalIsInjective(s1.id, s2.id);
      assert parts[2] == g1 == g2;
      assert Split(k1, ':') == parts[3..] == Split(k2, ':');
      SplitIsInjective(k1, k2);
    } else if s1.Global? && s2.Global? {
      assert parts[1] == g1 == g2;
      assert Split(k1, ':') == parts[2..] == Split(k2, ':');
      SplitIsInjective(k1, k2);
    } else if s1.Global? {
      GlobalNamedByNumeral(prefix, g1, k1, s2, g2, k2);
    } else {
      GlobalNamedByNumeral(prefix, g2, k2, s1, g1, k1);
    }
  }

  /** A global name that is also a per-blog name has the blog's number for its group. */
  lemma {:induction false} GlobalNamedByNumeral(prefix: string, g1: string, k1: string, s2: Scope, g2: string, k2: string)
    requires IsPrefix(prefix) && ':' !in g1 && ':' !in g2 && s2.Blog?
    requires KeyName(prefix, Global, g1, k1) == KeyName(prefix, s2, g2, k2)
    ensures g1 == Decimal(s2.id)
  {
    Segments(prefix, Global, g1, k1);
    Segments(prefix, s2, g2, k2);
    assert g1 == Split(KeyName(prefix, s2, g2, k2), ':')[1];
  }

  lemma {:induction false} GlobalGroupOfName(prefix: string, g1: string, k1: string, g2: string, k2: string)
    requires IsPrefix(prefix) && ':' !in g1 && ':' !in g2
    requires KeyName(prefix, Global, g1, k1) == KeyName(prefix, Global, g2, k2)
    ensures g1 == g2
  {
    Segments(prefix, Global, g1, k1);
    Segments(prefix, Global, g2, k2);
    assert g1 == Split(KeyName(prefix, Global, g2, k2), ':')[1];
  }

  /** Both conditions are needed, the first: each key of a group with a colon has the name of a key of another group. */
  lemma ColonGroupsCollide(prefix: string, scope: Scope, a: string, b: string, key: string)
    ensures KeyName(prefix, scope, a + ":" + b, key) == KeyName(prefix, scope, a, b + ":" + key)
    ensures a + ":" + b != a
  {
    Regroup(if scope.Global? then prefix + ":" else prefix + ":" + Decimal(scope.id) + ":", a, b, key);
  }

  lemma Regroup(head: string, a: string, b: string, key: string)
    ensures head + (a + ":" + b) + ":" + key == head + a + ":" + (b + ":" + key)
  {
  }

  /** And the second: each key of each group of a blog has the name of a key of the global group named by the blog's number. */
  lemma NumeralGroupsCollide(prefix: string, id: int, group: string, key: string)
    ensures KeyName(prefix, Blog(id), group, key) == KeyName(prefix, Global, Decimal(id), group + ":" + key)
  {
    assert KeyName(prefix, Blog(id), group, key)
        == prefix + ":" + Decimal(id) + ":" + group + ":" + key
        == KeyName(prefix, Global, Decimal(id), group + ":" + key);
  }

  /** The index of the memo: the group, a colon, and "g" or the blog id. */
  function MemoKey(scope: Scope, group: string): string {
    group + ":" + if scope.Global? then "g" else Decimal(scope.id)
  }

  /** No condition on group names is needed here: the last colon separates the scope. */
  lemma MemoKeysAreUnambiguous(s1: Scope, g1: string, s2: Scope, g2: string)
    requires MemoKey(s1, g1) == MemoKey(s2, g2)
    ensures s1 == s2 && g1 == g2
  {
    var t1, t2 := if s1.Global? then "g" else Decimal(s1.id), if s2.Global? then "g" else Decimal(s2.id);
    if s1.Blog? {
      DecimalHasNoColon(s1.id);
      DecimalSpelling(s1.id);
    }
    if s2.Blog? {
      DecimalHasNoColon(s2.id);
      DecimalSpelling(s2.id);
    }
    LastColon(g1, t1, g2, t2);
    if s1.Blog? && s2.Blog? {
      DecimalIsInjective(s1.id, s2.id);
    }
  }

  lemma DecimalSpelling(n: int)
    ensures Decimal(n) != "g"
  {
    if n >= 0 {
      DecimalIsDigits(n);
      assert Decimal(n)[0] in Decimal(n);
    } else {
      assert Decimal(n)[0] == '-';
    }
  }

  lemma {:induction false} LastColon(g1: string, t1: string, g2: string, t2: string)
    requires g1 + ":" + t1 == g2 + ":" + t2 && ':' !in t1 && ':' !in t2
    ensures g1 == g2 && t1 == t2
  {
    SplitOfFree(t1, ':');
    SplitOfFree(t2, ':');
    SplitOfConcat(g1, t1, ':');
    SplitOfConcat(g2, t2, ':');
    var p1, p2 := Split(g1, ':') + [t1], Split(g2, ':') + [t2];
    assert p1 == p2;
    assert p1[|p1| - 1] == t1 && p2[|p2| - 1] == t2;
    assert Split(g1, ':') == p1[..|p1| - 1] && Split(g2, ':') == p2[..|p2| - 1];
    SplitIsInjective(g1, g2);
  }
}
