/** Channel-topic construction of the emitter client: `Emitter::formatChannel` and the
    option maps that `publish`, `subscribe`, `unsubscribe` and `link` hand to it.

    A topic is `base ("?" query)?`; the base is the key-prefixed channel with a trailing
    `/`, the query the options as `name=value` pairs joined by `&`. */
module Topics {

  type Str = seq<char>

  /** A nullable PHP scalar parameter (`?int`, `?bool`). */
  datatype Option<T> = None | Some(value: T)

  /** A PHP option array as `foreach` visits it: (name, value) pairs in insertion order. */
  type Options = seq<(Str, Str)>

  /** `str_ends_with($s, $c)` for a one-character needle; false on the empty string. */
  predicate EndsWith(s: Str, c: char)
  {
    |s| > 0 && s[|s| - 1] == c
  }

  // ---------------------------------------------------------------------------
  // rtrim

  /** Whether every character of `s` is `c`. */
  predicate OnlyChar(s: Str, c: char)
  {
    forall i :: 0 <= i < |s| ==> s[i] == c
  }

  /** `rtrim($s, $c)`: drops every trailing `c`. The result is the longest prefix of `s`
      that does not end in `c`, and only copies of `c` are dropped. */
  function RTrim(s: Str, c: char): (r: Str)
    ensures |r| <= |s| && r == s[..|r|]
    ensures !EndsWith(r, c)
    ensures OnlyChar(s[|r|..], c)
  {
    if EndsWith(s, c) then
      var r := RTrim(s[..|s| - 1], c);
      assert s[|r|..] == s[..|s| - 1][|r|..] + [c];
      r
    else s
  }

  /** The three properties in RTrim's contract determine its result. */
  lemma RTrimUnique(s: Str, c: char, r: Str)
    requires |r| <= |s| && r == s[..|r|]
    requires !EndsWith(r, c)
    requires OnlyChar(s[|r|..], c)
    ensures RTrim(s, c) == r
  {
    var t := RTrim(s, c);
    if |t| < |r| {
      assert false;
    } else if |r| < |t| {
      assert false;
    }
  }

  /** Trimming a string whose head does not end in `c` only touches its tail. */
  lemma RTrimAppend(a: Str, b: Str, c: char)
    requires !EndsWith(a, c)
    ensures RTrim(a + b, c) == a + RTrim(b, c)
  {
    var t := RTrim(b, c);
    var r := a + t;
    assert r == (a + b)[..|r|];
    assert !EndsWith(r, c) by {
      if |t| == 0 { assert r == a; }
    }
    assert (a + b)[|r|..] == b[|t|..];
    RTrimUnique(a + b, c, r);
  }

  /** A string without `c` at its end is left alone, and one trailing `c` more changes nothing. */
  lemma RTrimOneMore(s: Str, c: char)
    ensures RTrim(s + [c], c) == RTrim(s, c)
  {
    assert (s + [c])[..|s|] == s;
  }

  /** A string that never contains `c` is left alone. */
  lemma RTrimNoSep(s: Str, c: char)
    requires c !in s
    ensures RTrim(s, c) == s
  {
    if s != [] {
      assert s[|s| - 1] in s;
    }
  }

  // ---------------------------------------------------------------------------
  // Decimal rendering of PHP integers (the `ttl` and `last` options)

  function DigitChar(d: nat): (ch: char)
    requires d < 10
    ensures '0' <= ch <= '9' && ch as int - '0' as int == d
  {
    ('0' as int + d) as char
  }

  predicate IsDigits(s: Str)
  {
    forall i :: 0 <= i < |s| ==> '0' <= s[i] <= '9'
  }

  /** PHP's string conversion of a non-negative integer: its decimal digits, without
      leading zeros. */
  function NatToDecimal(n: nat): (s: Str)
    ensures |s| > 0 && IsDigits(s)
    ensures s[0] == '0' ==> n == 0 && s == "0"
  {
    if n < 10 then [DigitChar(n)] else NatToDecimal(n / 10) + [DigitChar(n % 10)]
  }

  /** PHP's string conversion of an integer: a `-` for negatives, then the digits. */
  function IntToDecimal(i: int): (s: Str)
    ensures |s| > 0 && '&' !in s
    ensures (s[0] == '-') <==> i < 0
  {
    if i < 0 then "-" + NatToDecimal(-i) else NatToDecimal(i)
  }

  /** The value of a string of decimal digits. */
  function DecimalValue(s: Str): nat
    requires IsDigits(s)
  {
    if s == [] then 0 else DecimalValue(s[..|s| - 1]) * 10 + (s[|s| - 1] as int - '0' as int)
  }

  /** The value of a rendered integer: the inverse of IntToDecimal. */
  function IntValue(s: Str): int
    requires |s| > 0 && (s[0] == '-' ==> IsDigits(s[1..])) && (s[0] != '-' ==> IsDigits(s))
  {
    if s[0] == '-' then -(DecimalValue(s[1..]) as int) else DecimalValue(s)
  }

  /** Reading back the digits NatToDecimal writes gives the number again. */
  lemma {:induction false} NatDecimalRoundTrip(n: nat)
    ensures DecimalValue(NatToDecimal(n)) == n
  {
    if n >= 10 {
      var s := NatToDecimal(n);
      assert s[..|s| - 1] == NatToDecimal(n / 10);
      NatDecimalRoundTrip(n / 10);
    }
  }

  /** An integer option value renders without loss: reading it back gives the integer. */
  lemma IntDecimalRoundTrip(i: int)
    ensures var s := IntToDecimal(i);
      |s| > 0 && (s[0] == '-' ==> IsDigits(s[1..])) && (s[0] != '-' ==> IsDigits(s))
      && IntValue(s) == i
  {
    if i < 0 {
      NatDecimalRoundTrip(-i);
      assert IntToDecimal(i)[1..] == NatToDecimal(-i);
    } else {
      NatDecimalRoundTrip(i);
    }
  }

  // ---------------------------------------------------------------------------
  // The base: key prefix, channel, trailing slash (src/Emitter.php:301-310)

  /** `$formatted` after the key prefix step: the key itself when it is empty (the channel
      is not used then), otherwise key and channel with a `/` between them unless the key
      already ends in one. */
  function Prefixed(key: Str, channel: Str): (p: Str)
    ensures |key| == 0 ==> p == []
    ensures |key| > 0 ==>
      (|key| + |channel| <= |p| <= |key| + |channel| + 1
       && p[..|key|] == key && p[|p| - |channel|..] == channel)
  {
    if |key| > 0 then
      if EndsWith(key, '/') then key + channel else key + "/" + channel
    else key
  }

  /** `$formatted` before any query: the prefixed channel with a `/` added only when it
      does not already end in one. */
  function Base(key: Str, channel: Str): (b: Str)
    ensures EndsWith(b, '/')
    ensures |key| > 0 ==> |key| <= |b| && b[..|key|] == key
  {
    var p := Prefixed(key, channel);
    if EndsWith(p, '/') then p else p + "/"
  }

  /** With a key not ending in `/`, one `/` separates key and channel. */
  lemma BaseWithSeparator(key: Str, channel: Str)
    requires |key| > 0 && !EndsWith(key, '/')
    ensures var s := key + "/" + channel;
      Base(key, channel) == if EndsWith(s, '/') then s else s + "/"
  {
  }

  /** With a key ending in `/`, no separator is inserted. */
  lemma BaseWithoutSeparator(key: Str, channel: Str)
    requires EndsWith(key, '/')
    ensures var s := key + channel;
      Base(key, channel) == if EndsWith(s, '/') then s else s + "/"
  {
  }

  /** With an empty key the channel is dropped: the base is `/` whatever the channel. */
  lemma BaseEmptyKey(channel: Str)
    ensures Base("", channel) == "/"
  {
  }

  /** Whether `s` ends in two `/`. */
  predicate EndsInDoubleSlash(s: Str)
  {
    |s| >= 2 && s[|s| - 2] == '/' && s[|s| - 1] == '/'
  }

  /** The trailing `/` is never doubled: the base extends the prefixed channel by at most
      one character, and it ends in `//` exactly when the prefixed channel already does. */
  lemma BaseSlashNotDoubled(key: Str, channel: Str)
    ensures var p, b := Prefixed(key, channel), Base(key, channel);
      |p| <= |b| <= |p| + 1 && b[..|p|] == p
    ensures EndsInDoubleSlash(Base(key, channel)) <==> EndsInDoubleSlash(Prefixed(key, channel))
  {
    var p, b := Prefixed(key, channel), Base(key, channel);
    if !EndsWith(p, '/') && |p| > 0 {
      assert b[|b| - 2] == p[|p| - 1];
    }
  }

  /** The channel a base was built for, given the key: strip the key and its separator,
      then the trailing `/`. */
  function ChannelOf(key: Str, base: Str): Str
    requires |key| > 0 && |key| <= |base|
  {
    var skip := if EndsWith(key, '/') then |key| else |key| + 1;
    var rest := if skip <= |base| then base[skip..] else [];
    if EndsWith(rest, '/') then rest[..|rest| - 1] else rest
  }

  /** With a non-empty key, the base loses nothing: the channel is recovered from it
      exactly, provided it does not itself end in `/` (a channel `c/` and a channel `c`
      give the same base). */
  lemma ChannelRoundTrip(key: Str, channel: Str)
    requires |key| > 0 && !EndsWith(channel, '/')
    ensures ChannelOf(key, Base(key, channel)) == channel
  {
    var b := Base(key, channel);
    if EndsWith(key, '/') {
      if channel == [] {
        assert key + channel == key;
        assert b == key;
        assert b[|key|..] == [];
      } else {
        assert b == key + channel + "/";
        assert b[|key|..] == channel + "/";
      }
    } else {
      var s := key + "/" + channel;
      if channel == [] {
        assert b == s;
        assert b[|key| + 1..] == [];
      } else {
        assert s[|s| - 1] == channel[|channel| - 1];
        assert b == s + "/";
        assert b[|key| + 1..] == channel + "/";
      }
    }
  }

  // ---------------------------------------------------------------------------
  // The query (src/Emitter.php:313-324)

  function Param(p: (Str, Str)): Str
  {
    p.0 + "=" + p.1
  }

  /** The last pair once `rtrim` has run: its value loses its trailing `&`s. */
  function Trimmed(p: (Str, Str)): Str
  {
    p.0 + "=" + RTrim(p.1, '&')
  }

  /** One pair as the loop appends it. */
  function Item(p: (Str, Str)): Str
  {
    p.0 + "=" + p.1 + "&"
  }

  /** The pairs `name=value` joined by `&`; the `rtrim` on the last iteration also strips
      any `&` at the end of the last value. */
  function Joined(options: Options): (q: Str)
    requires |options| > 0
    ensures |q| > 0 && !EndsWith(q, '&')
    ensures |options[0].0| < |q| && q[..|options[0].0| + 1] == options[0].0 + "="
    decreases |options|
  {
    if |options| == 1 then Trimmed(options[0])
    else Param(options[0]) + "&" + Joined(options[1..])
  }

  /** The query suffix: nothing for no options, otherwise `?` and the joined pairs. */
  function Query(options: Options): (q: Str)
    ensures q == [] <==> options == []
    ensures q != [] ==> q[0] == '?' && !EndsWith(q, '&')
  {
    if options == [] then [] else "?" + Joined(options)
  }

  /** The topic `formatChannel` returns for these arguments. */
  function Topic(key: Str, channel: Str, options: Options): (t: Str)
    ensures |Base(key, channel)| <= |t|
    ensures |t| == |Base(key, channel)| <==> options == []
  {
    Base(key, channel) + Query(options)
  }

  /** The pairs as the loop appends them, each followed by `&`. */
  function Appended(options: Options): Str
  {
    if options == [] then [] else Item(options[0]) + Appended(options[1..])
  }

  lemma {:induction false} AppendedSnoc(options: Options, p: (Str, Str))
    ensures Appended(options + [p]) == Appended(options) + Item(p)
  {
    if options != [] {
      assert (options + [p])[1..] == options[1..] + [p];
      AppendedSnoc(options[1..], p);
    } else {
      assert [p][1..] == [];
    }
  }

  /** The joined pairs are all but the last as appended, then the last with its value trimmed. */
  lemma {:induction false} JoinedAsAppended(options: Options)
    requires |options| > 0
    ensures Joined(options) == Appended(options[..|options| - 1]) + Trimmed(options[|options| - 1])
  {
    var n := |options|;
    if n > 1 {
      JoinedAsAppended(options[1..]);
      assert options[1..][..n - 2] == options[..n - 1][1..];
      assert options[..n - 1][0] == options[0];
    }
  }

  /** With options the topic is the base, `?`, then the pairs; it never ends in `&`. */
  lemma TopicWithOptions(key: Str, channel: Str, options: Options)
    requires options != []
    ensures var t := Topic(key, channel, options); var b := Base(key, channel);
      |b| < |t| && t[..|b|] == b && t[|b|] == '?' && !EndsWith(t, '&')
      && t[|b| + 1..] == Joined(options)
  {
    QueryParts(Base(key, channel), Joined(options));
  }

  /** Proof helper: the parts of a base followed by a query. */
  lemma QueryParts(b: Str, q: Str)
    requires q != []
    ensures var t := b + ("?" + q);
      |b| < |t| && t[..|b|] == b && t[|b|] == '?' && t[|b| + 1..] == q && t[|t| - 1] == q[|q| - 1]
  {
    var t := b + ("?" + q);
    assert t[|b| + 1..] == q;
  }

  /** Whether no option name or value contains `c`. */
  predicate Free(options: Options, c: char)
  {
    forall i :: 0 <= i < |options| ==> c !in options[i].0 && c !in options[i].1
  }

  function Params(options: Options): seq<Str>
  {
    if options == [] then [] else [Param(options[0])] + Params(options[1..])
  }

  /** Splitting at every `sep`, as a reader of the query would. */
  function Split(s: Str, sep: char): (parts: seq<Str>)
    ensures |parts| > 0
  {
    if s == [] then [[]]
    else
      var rest := Split(s[1..], sep);
      if s[0] == sep then [[]] + rest else [[s[0]] + rest[0]] + rest[1..]
  }

  lemma {:induction false} SplitNoSep(s: Str, sep: char)
    requires sep !in s
    ensures Split(s, sep) == [s]
  {
    if s != [] {
      SplitNoSep(s[1..], sep);
      assert [s[0]] + s[1..] == s;
    }
  }

  lemma {:induction false} SplitAfterPart(a: Str, sep: char, b: Str)
    requires sep !in a
    ensures Split(a + [sep] + b, sep) == [a] + Split(b, sep)
  {
    if a == [] {
      assert a + [sep] + b == [sep] + b;
      assert ([sep] + b)[1..] == b;
    } else {
      var s := a + [sep] + b;
      assert s[1..] == a[1..] + [sep] + b;
      SplitAfterPart(a[1..], sep, b);
      assert [a[0]] + a[1..] == a;
    }
  }

  /** When no name or value contains `&`, nothing is trimmed and splitting the query at
      `&` gives back each `name=value` pair, in insertion order. */
  lemma {:induction false} SplitJoined(options: Options)
    requires |options| > 0 && Free(options, '&')
    ensures Split(Joined(options), '&') == Params(options)
  {
    var p := options[0];
    assert p == options[0];
    assert '&' !in Param(p) by {
      assert Param(p) == p.0 + "=" + p.1;
    }
    if |options| == 1 {
      assert !EndsWith(p.1, '&');
      assert RTrim(p.1, '&') == p.1;
      SplitNoSep(Param(p), '&');
    } else {
      var rest := options[1..];
      assert Free(rest, '&') by {
        forall i | 0 <= i < |rest| ensures '&' !in rest[i].0 && '&' !in rest[i].1 {
          assert rest[i] == options[i + 1];
        }
      }
      SplitJoined(rest);
      assert Joined(options) == Param(p) + ['&'] + Joined(rest);
      SplitAfterPart(Param(p), '&', Joined(rest));
    }
  }

  /** A worked example. */
  lemma ExampleTopic()
    ensures Topic("ABC123", "articles", [("me", "1"), ("ttl", "10")]) == "ABC123/articles/?me=1&ttl=10"
  {
    var options := [("me", "1"), ("ttl", "10")];
    ExampleBase();
    JoinedPair("me", "1", "ttl", "10");
    TopicFromJoined("ABC123", "articles", options, "me" + "=" + "1" + "&" + "ttl" + "=" + "10");
    ExampleLiterals();
  }

  // Proof helpers for the worked example: its base, and its text pieced together.

  lemma ExampleBase()
    ensures Base("ABC123", "articles") == "ABC123/articles/"
  {
    assert Prefixed("ABC123", "articles") == "ABC123/articles";
  }

  lemma ExampleLiterals()
    ensures "ABC123/articles/" + "?" + ("me" + "=" + "1" + "&" + "ttl" + "=" + "10") == "ABC123/articles/?me=1&ttl=10"
  {
  }

  // ---------------------------------------------------------------------------
  // The formatter itself (src/Emitter.php:299-327)

  /** `formatChannel`: builds the topic by successive appends; after the last pair's
      append, the trailing `&`s are trimmed. */
  method FormatChannel(key: Str, channel: Str, options: Options) returns (formatted: Str)
    ensures formatted == Topic(key, channel, options)
  {
    formatted := key;
    if |key| > 0 {
      formatted := if EndsWith(key, '/') then key + channel else key + "/" + channel;
    }
    assert formatted == Prefixed(key, channel);
    if !EndsWith(formatted, '/') {
      formatted := formatted + "/";
    }
    assert formatted == Base(key, channel);
    if |options| > 0 {
      formatted := formatted + "?";
      ghost var head := formatted;
      assert Topic(key, channel, options) == head + Joined(options) by {
        AppendAssoc(Base(key, channel), "?", Joined(options));
      }
      var i := 0;
      while i < |options|
        invariant 0 <= i <= |options|
        invariant i < |options| ==> formatted == head + Appended(options[..i])
        invariant i == |options| ==> formatted == head + Joined(options)
      {
        var (name, value) := options[i];
        formatted := formatted + (name + "=" + value + "&");
        AppendStep(head, options, i);
        i := i + 1;
        if i == |options| {
          assert options[..i] == options;
          TrimStep(head, options, formatted);
          formatted := RTrim(formatted, '&');
        }
      }
    }
  }

  /** One pass of the loop appends the next pair and its `&`. */
  lemma AppendStep(head: Str, options: Options, i: nat)
    requires i < |options|
    ensures head + Appended(options[..i]) + Item(options[i]) == head + Appended(options[..i + 1])
  {
    AppendedSnoc(options[..i], options[i]);
    assert options[..i] + [options[i]] == options[..i + 1];
  }

  /** The `rtrim` after the last pair turns the appended pairs into the joined query. */
  lemma TrimStep(head: Str, options: Options, s: Str)
    requires |options| > 0 && s == head + Appended(options)
    ensures RTrim(s, '&') == head + Joined(options)
  {
    var last := options[|options| - 1];
    var written := head + Appended(options[..|options| - 1]);
    assert s == written + Item(last) by {
      assert options[..|options| - 1] + [last] == options;
      AppendedSnoc(options[..|options| - 1], last);
    }
    assert RTrim(s, '&') == written + Trimmed(last) by {
      RTrimItem(written, last);
    }
    assert head + Joined(options) == written + Trimmed(last) by {
      JoinedAsAppended(options);
      AppendAssoc(head, Appended(options[..|options| - 1]), Trimmed(last));
    }
  }

  /** Proof helper: regrouping a concatenation. */
  lemma AppendAssoc(a: Str, b: Str, c: Str)
    ensures a + (b + c) == a + b + c
  {
  }

  /** `rtrim` after the last append only trims the last value. */
  lemma RTrimItem(written: Str, p: (Str, Str))
    ensures RTrim(written + Item(p), '&') == written + Trimmed(p)
  {
    var a := written + p.0 + "=";
    assert written + Item(p) == a + (p.1 + "&");
    RTrimAppend(a, p.1 + "&", '&');
    RTrimOneMore(p.1, '&');
  }

  // ---------------------------------------------------------------------------
  // Option maps built by the callers (src/Emitter.php:136-147, 160-164, 176, 196-207)

  /** `publish` and `link`: `me` ('1' when null or true, '0' when false), then `ttl`
      when it is non-null and non-zero. */
  function PublishOptions(ttl: Option<int>, me: Option<bool>): (options: Options)
    ensures 1 <= |options| <= 2 && options[0] == ("me", if me == Some(false) then "0" else "1")
    ensures |options| == 2 <==> ttl.Some? && ttl.value != 0
    ensures |options| == 2 ==> options[1] == ("ttl", IntToDecimal(ttl.value))
    ensures Free(options, '&')
  {
    var withMe := [("me", if me.None? || me.value then "1" else "0")];
    if ttl.Some? && ttl.value != 0 then
      withMe + [("ttl", IntToDecimal(ttl.value))]
    else withMe
  }

  /** `subscribe`: `last` whenever it is non-null, zero included. */
  function SubscribeOptions(last: Option<int>): (options: Options)
    ensures |options| == 1 <==> last.Some?
    ensures |options| <= 1
    ensures |options| == 1 ==> options[0] == ("last", IntToDecimal(last.value))
    ensures Free(options, '&')
  {
    if last.Some? then
      [("last", IntToDecimal(last.value))]
    else []
  }

  /** The topic `publish` and `link` use: the query always starts with `?me=`, carries the
      flag, and then `&ttl=` with the decimal ttl exactly when the ttl is non-zero. */
  lemma PublishTopicShape(key: Str, channel: Str, ttl: Option<int>, me: Option<bool>)
    ensures Topic(key, channel, PublishOptions(ttl, me)) ==
      Base(key, channel) + "?me=" + (if me == Some(false) then "0" else "1")
      + (if ttl.Some? && ttl.value != 0 then "&ttl=" + IntToDecimal(ttl.value) else "")
  {
    var flag: Str := if me == Some(false) then "0" else "1";
    var b := Base(key, channel);
    if ttl.Some? && ttl.value != 0 {
      var d := IntToDecimal(ttl.value);
      assert PublishOptions(ttl, me) == [("me", flag), ("ttl", d)];
      JoinedPair("me", flag, "ttl", d);
      TopicFromJoined(key, channel, PublishOptions(ttl, me), "me" + "=" + flag + "&" + "ttl" + "=" + d);
      RegroupTwo(b, flag, d);
    } else {
      assert PublishOptions(ttl, me) == [("me", flag)];
      JoinedSingle("me", flag);
      TopicFromJoined(key, channel, PublishOptions(ttl, me), "me" + "=" + flag);
      RegroupOne(b, "me", flag);
      QueryLiterals();
    }
  }

  /** The topic `subscribe` uses: `?last=` and the decimal value exactly when `last` is
      given, zero included; the bare base otherwise. */
  lemma SubscribeTopicShape(key: Str, channel: Str, last: Option<int>)
    ensures Topic(key, channel, SubscribeOptions(last)) ==
      Base(key, channel) + (if last.Some? then "?last=" + IntToDecimal(last.value) else "")
  {
    if last.Some? {
      var d := IntToDecimal(last.value);
      JoinedSingle("last", d);
      TopicFromJoined(key, channel, SubscribeOptions(last), "last" + "=" + d);
      RegroupOne(Base(key, channel), "last", d);
      QueryLiterals();
    }
  }

  /** A single pair whose value has no `&` is rendered as is. */
  lemma JoinedSingle(name: Str, value: Str)
    requires '&' !in value
    ensures Joined([(name, value)]) == name + "=" + value
  {
    RTrimNoSep(value, '&');
  }

  /** Two pairs, the second value without `&`, are rendered as is, joined by `&`. */
  lemma JoinedPair(name1: Str, value1: Str, name2: Str, value2: Str)
    requires '&' !in value2
    ensures Joined([(name1, value1), (name2, value2)]) == name1 + "=" + value1 + "&" + name2 + "=" + value2
  {
    var options := [(name1, value1), (name2, value2)];
    assert options[1..] == [(name2, value2)];
    JoinedSingle(name2, value2);
  }

  /** Proof helper: the topic once the joined pairs are known. */
  lemma TopicFromJoined(key: Str, channel: Str, options: Options, joined: Str)
    requires options != [] && Joined(options) == joined
    ensures Topic(key, channel, options) == Base(key, channel) + "?" + joined
  {
  }

  // Proof helpers: regroupings of concatenations and string literals that the topic
  // shape lemmas above need.

  lemma RegroupOne(b: Str, name: Str, value: Str)
    ensures b + "?" + (name + "=" + value) == b + ("?" + name + "=") + value
  {
  }

  lemma QueryLiterals()
    ensures "?" + "me" + "=" == "?me="
    ensures "?" + "last" + "=" == "?last="
  {
  }

  lemma RegroupTwo(b: Str, flag: Str, d: Str)
    ensures b + "?" + ("me" + "=" + flag + "&" + "ttl" + "=" + d) == b + "?me=" + flag + ("&ttl=" + d)
  {
  }

  /** The topic `unsubscribe` uses carries no query. */
  lemma UnsubscribeTopicShape(key: Str, channel: Str)
    ensures Topic(key, channel, []) == Base(key, channel)
    ensures '?' !in channel && '?' !in key ==> '?' !in Topic(key, channel, [])
  {
  }
}
