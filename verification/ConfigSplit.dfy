/** Splitting the key of a flattened connection setting back into connection key and field path,
    although connection keys may contain dots themselves. */
module ConfigSplit {
  import opened Common

  /** The parts between the dots; a text without dots is one part. */
  function SplitDots(s: string): (parts: seq<string>)
    ensures parts != []
    ensures forall p | p in parts :: DotFree(p)
    ensures Join(parts) == s
  {
    if s == "" then [""]
    else
      var rest := SplitDots(s[1..]);
      if s[0] == '.' then
        var parts := [""] + rest;
        assert parts[1..] == rest && Join(parts) == "." + Join(rest);
        parts
      else
        var parts := [[s[0]] + rest[0]] + rest[1..];
        assert parts[1..] == rest[1..] && Join(parts) == [s[0]] + Join(rest);
        assert rest[0] in rest && DotFree(parts[0]);
        assert forall p | p in rest[1..] :: p in rest;
        parts
  }

  predicate DotFree(s: string) {
    '.' !in s
  }

  /** Each part preceded by a dot. */
  function Dotted(parts: seq<string>): string {
    if parts == [] then "" else "." + parts[0] + Dotted(parts[1..])
  }

  /** The parts with a dot between each two. */
  function Join(parts: seq<string>): string
    requires parts != []
  {
    parts[0] + Dotted(parts[1..])
  }

  lemma {:induction false} SplitDotted(p: string, rest: seq<string>)
    requires DotFree(p) && forall q | q in rest :: DotFree(q)
    ensures SplitDots(p + Dotted(rest)) == [p] + rest
    decreases |rest|, |p|
  {
    var s := p + Dotted(rest);
    if p != "" {
      assert s[1..] == p[1..] + Dotted(rest);
      SplitDotted(p[1..], rest);
      assert p == [p[0]] + p[1..];
    } else if rest != [] {
      assert s == Dotted(rest) && s[1..] == rest[0] + Dotted(rest[1..]);
      SplitDotted(rest[0], rest[1..]);
    }
  }

  /** Splitting undoes joining for parts without dots. */
  lemma SplitJoin(parts: seq<string>)
    requires parts != [] && forall p | p in parts :: DotFree(p)
    ensures SplitDots(Join(parts)) == parts
  {
    SplitDotted(parts[0], parts[1..]);
  }

  // ---------------------------------------------------------------------------------------
  // The connection settings
  // ---------------------------------------------------------------------------------------

  const API_CONFIG_FIELDS: seq<string> := [
    "enable", "key", "prefix_id", "tags", "model_ids", "connection_type", "provider", "auth_type",
    "headers", "azure", "api_type", "api_version", "extra_params", "passthrough_params"
  ]

  /** Field names have no dots and are not empty. */
  ghost predicate Plain(fields: seq<string>) {
    forall f | f in fields :: DotFree(f) && f != ""
  }

  lemma ApiFieldsPlain()
    ensures Plain(API_CONFIG_FIELDS)
  {
    assert DotFree("enable") && DotFree("key") && DotFree("prefix_id") && DotFree("tags") && DotFree("model_ids");
    assert DotFree("connection_type") && DotFree("provider") && DotFree("auth_type") && DotFree("headers");
    assert DotFree("azure") && DotFree("api_type") && DotFree("api_version") && DotFree("extra_params");
    assert DotFree("passthrough_params");
  }

  /** The runs of consecutive digits in Unicode 14, superscripts and circled digits included. */
  const DIGIT_RUNS: seq<(int, int)> := [
    (0x30, 0x39), (0xb2, 0xb3), (0xb9, 0xb9), (0x660, 0x669), (0x6f0, 0x6f9), (0x7c0, 0x7c9),
    (0x966, 0x96f), (0x9e6, 0x9ef), (0xa66, 0xa6f), (0xae6, 0xaef), (0xb66, 0xb6f), (0xbe6, 0xbef),
    (0xc66, 0xc6f), (0xce6, 0xcef), (0xd66, 0xd6f), (0xde6, 0xdef), (0xe50, 0xe59), (0xed0, 0xed9),
    (0xf20, 0xf29), (0x1040, 0x1049), (0x1090, 0x1099), (0x1369, 0x1371), (0x17e0, 0x17e9),
    (0x1810, 0x1819), (0x1946, 0x194f), (0x19d0, 0x19da), (0x1a80, 0x1a89), (0x1a90, 0x1a99),
    (0x1b50, 0x1b59), (0x1bb0, 0x1bb9), (0x1c40, 0x1c49), (0x1c50, 0x1c59), (0x2070, 0x2070),
    (0x2074, 0x2079), (0x2080, 0x2089), (0x2460, 0x2468), (0x2474, 0x247c), (0x2488, 0x2490),
    (0x24ea, 0x24ea), (0x24f5, 0x24fd), (0x24ff, 0x24ff), (0x2776, 0x277e), (0x2780, 0x2788),
    (0x278a, 0x2792), (0xa620, 0xa629), (0xa8d0, 0xa8d9), (0xa900, 0xa909), (0xa9d0, 0xa9d9),
    (0xa9f0, 0xa9f9), (0xaa50, 0xaa59), (0xabf0, 0xabf9), (0xff10, 0xff19), (0x104a0, 0x104a9),
    (0x10a40, 0x10a43), (0x10d30, 0x10d39), (0x10e60, 0x10e68), (0x11052, 0x1105a), (0x11066, 0x1106f),
    (0x110f0, 0x110f9), (0x11136, 0x1113f), (0x111d0, 0x111d9), (0x112f0, 0x112f9), (0x11450, 0x11459),
    (0x114d0, 0x114d9), (0x11650, 0x11659), (0x116c0, 0x116c9), (0x11730, 0x11739), (0x118e0, 0x118e9),
    (0x11950, 0x11959), (0x11c50, 0x11c59), (0x11d50, 0x11d59), (0x11da0, 0x11da9), (0x16a60, 0x16a69),
    (0x16ac0, 0x16ac9), (0x16b50, 0x16b59), (0x1d7ce, 0x1d7ff), (0x1e140, 0x1e149), (0x1e2f0, 0x1e2f9),
    (0x1e950, 0x1e959), (0x1f100, 0x1f10a), (0x1fbf0, 0x1fbf9)
  ]

  predicate InRuns(n: int, runs: seq<(int, int)>) {
    runs != [] && (runs[0].0 <= n <= runs[0].1 || InRuns(n, runs[1..]))
  }

  /** No digit comes before the ASCII ones. */
  predicate IsDigit(c: char) {
    '0' <= c && InRuns(c as int, DIGIT_RUNS)
  }

  /** A text of at least one character, all of them digits. */
  predicate AllDigits(s: string) {
    s != "" && forall i | 0 <= i < |s| :: IsDigit(s[i])
  }

  /** The text before the first dot, and the text after it. */
  function First(s: string): string {
    if s == "" || s[0] == '.' then "" else [s[0]] + First(s[1..])
  }

  function AfterFirst(s: string): string {
    if s == "" then "" else if s[0] == '.' then s[1..] else AfterFirst(s[1..])
  }

  predicate StartsWithField(fields: seq<string>, s: string) {
    exists f | f in fields :: f <= s
  }

  /** A dot at `i` is followed by a field name. */
  predicate MarkerAt(fields: seq<string>, s: string, i: int) {
    0 <= i < |s| && s[i] == '.' && StartsWithField(fields, s[i + 1..])
  }

  /** The last marker before position `n`, or -1. */
  function LastMarkerBefore(fields: seq<string>, s: string, n: nat): (r: int)
    requires n <= |s|
    ensures -1 <= r < n
    ensures r >= 0 ==> MarkerAt(fields, s, r)
    ensures forall i | r < i < n :: !MarkerAt(fields, s, i)
  {
    if n == 0 then -1 else if MarkerAt(fields, s, n - 1) then n - 1 else LastMarkerBefore(fields, s, n - 1)
  }

  function LastMarker(fields: seq<string>, s: string): int {
    LastMarkerBefore(fields, s, |s|)
  }

  /** The split of a fragment: a numeric first segment is the key; otherwise the last marker ends it. */
  function SplitFragment(fields: seq<string>, fragment: string): Option<(string, seq<string>)> {
    if fragment == "" then None
    else if AllDigits(First(fragment)) && AfterFirst(fragment) != "" then
      Some((First(fragment), SplitDots(AfterFirst(fragment))))
    else if LastMarker(fields, fragment) > 0 then
      Some((fragment[..LastMarker(fields, fragment)], SplitDots(fragment[LastMarker(fields, fragment) + 1..])))
    else None
  }

  /** The last position at which the marker occurs, or -1. */
  method RFind(s: string, marker: string) returns (r: int)
    requires marker != ""
    ensures -1 <= r < |s|
    ensures r >= 0 ==> marker <= s[r..]
    ensures forall i | r < i < |s| :: !(marker <= s[i..])
  {
    r := |s| - 1;
    while r >= 0 && !(marker <= s[r..])
      invariant -1 <= r < |s|
      invariant forall i | r < i < |s| :: !(marker <= s[i..])
    {
      r := r - 1;
    }
  }

  lemma FieldMarker(fields: seq<string>, s: string, i: int, f: string)
    requires 0 <= i < |s| && "." + f <= s[i..] && f in fields
    ensures MarkerAt(fields, s, i)
  {
    assert s[i..][0] == ("." + f)[0] == '.';
    assert s[i + 1..] == s[i..][1..] && f == ("." + f)[1..];
  }

  /** The loop over the fields keeps the marker that occurs last. */
  method BestMarker(fields: seq<string>, fragment: string) returns (best: int)
    ensures best == LastMarker(fields, fragment)
  {
    best := -1;
    for n := 0 to |fields|
      invariant -1 <= best < |fragment|
      invariant best >= 0 ==> MarkerAt(fields, fragment, best)
      invariant forall m, i | 0 <= m < n && best < i < |fragment| :: !("." + fields[m] <= fragment[i..])
    {
      var index := RFind(fragment, "." + fields[n]);
      if index != -1 && (best == -1 || index > best) {
        FieldMarker(fields, fragment, index, fields[n]);
        best := index;
      }
    }
    forall i | best < i < |fragment|
      ensures !MarkerAt(fields, fragment, i)
    {
      forall f | f in fields
        ensures !(f <= fragment[i + 1..]) || fragment[i] != '.'
      {
        var m :| 0 <= m < |fields| && fields[m] == f;
        assert !("." + fields[m] <= fragment[i..]);
        assert fragment[i..] == [fragment[i]] + fragment[i + 1..];
      }
    }
  }

  /** The split as the source runs it. */
  method SplitApiConfigFragment(fields: seq<string>, fragment: string) returns (r: Option<(string, seq<string>)>)
    ensures r == SplitFragment(fields, fragment)
  {
    if fragment == "" {
      return None;
    }
    var first, rest := First(fragment), AfterFirst(fragment);
    if AllDigits(first) && rest != "" {
      return Some((first, SplitDots(rest)));
    }
    var best := BestMarker(fields, fragment);
    if best != -1 && fragment[..best] != "" {
      return Some((fragment[..best], SplitDots(fragment[best + 1..])));
    }
    r := None;
  }

  // ---------------------------------------------------------------------------------------
  // Splitting undoes joining
  // ---------------------------------------------------------------------------------------

  /** The connection keys and paths below them for which the split is unambiguous: no part of the path
      has a dot, and either the key is a number and the path is not a lone empty part, or the key's
      first segment is no number and of the path exactly the first part starts with a field name. */
  predicate Unambiguous(fields: seq<string>, key: string, parts: seq<string>)
    requires parts != []
  {
    && key != "" && (forall t | t in parts :: DotFree(t))
    && if AllDigits(First(key)) then AllDigits(key) && parts != [""]
       else StartsWithField(fields, parts[0]) && forall t | t in parts[1..] :: !StartsWithField(fields, t)
  }

  lemma {:induction false} FirstOfConcat(a: string, b: string)
    ensures First(a + "." + b) == First(a)
    ensures DotFree(a) ==> First(a) == a && AfterFirst(a + "." + b) == b
    ensures !DotFree(a) ==> First(a) != a && AfterFirst(a + "." + b) != ""
  {
    var s := a + "." + b;
    if a != "" {
      assert s[1..] == a[1..] + "." + b;
      if a[0] != '.' {
        FirstOfConcat(a[1..], b);
        assert a == [a[0]] + a[1..];
      }
    } else {
      assert s[1..] == b;
    }
  }

  lemma DigitsHaveNoDot(s: string)
    requires AllDigits(s)
    ensures DotFree(s)
  {
  }

  lemma MarkerShift(fields: seq<string>, a: string, b: string, i: nat)
    ensures MarkerAt(fields, a + b, |a| + i) <==> MarkerAt(fields, b, i)
  {
    if i < |b| {
      assert (a + b)[|a| + i + 1..] == b[i + 1..];
    }
  }

  /** A field name that starts `p + Dotted(rest)` starts `p`. */
  lemma FieldStaysInPart(fields: seq<string>, p: string, rest: seq<string>)
    requires Plain(fields)
    ensures StartsWithField(fields, p + Dotted(rest)) <==> StartsWithField(fields, p)
  {
    var s := p + Dotted(rest);
    if f :| f in fields && f <= s {
      assert |s| > |p| ==> s[|p|] == '.';
      assert |f| <= |p|;
      assert f <= p;
    }
    if f :| f in fields && f <= p {
      assert f <= s;
    }
  }

  lemma DottedHead(fields: seq<string>, tail: seq<string>)
    requires tail != [] && Plain(fields)
    ensures var head := "." + tail[0];
            && Dotted(tail) == head + Dotted(tail[1..])
            && (MarkerAt(fields, Dotted(tail), 0) <==> StartsWithField(fields, tail[0]))
            && forall i | 0 < i < |head| :: Dotted(tail)[i] == tail[0][i - 1]
  {
    DottedStart(tail);
    FieldStaysInPart(fields, tail[0], tail[1..]);
  }

  lemma DottedStart(tail: seq<string>)
    requires tail != []
    ensures var head := "." + tail[0];
            && Dotted(tail) == head + Dotted(tail[1..])
            && Dotted(tail)[0] == '.' && Dotted(tail)[1..] == tail[0] + Dotted(tail[1..])
            && forall i | 0 < i < |head| :: Dotted(tail)[i] == tail[0][i - 1]
  {
  }

  /** A marker in a dotted tail is a part that starts with a field name. */
  lemma {:induction false} MarkerToPart(fields: seq<string>, tail: seq<string>, i: int) returns (t: string)
    requires Plain(fields) && (forall t | t in tail :: DotFree(t)) && MarkerAt(fields, Dotted(tail), i)
    ensures t in tail && StartsWithField(fields, t)
    decreases |tail|
  {
    DottedHead(fields, tail);
    var head := "." + tail[0];
    if i == 0 {
      t := tail[0];
    } else {
      assert DotFree(tail[0]);
      assert i >= |head|;
      MarkerShift(fields, head, Dotted(tail[1..]), i - |head|);
      t := MarkerToPart(fields, tail[1..], i - |head|);
    }
  }

  lemma {:induction false} PartToMarker(fields: seq<string>, tail: seq<string>, t: string) returns (i: nat)
    requires Plain(fields) && t in tail && StartsWithField(fields, t)
    ensures MarkerAt(fields, Dotted(tail), i)
    decreases |tail|
  {
    DottedHead(fields, tail);
    if t == tail[0] {
      i := 0;
    } else {
      var j := PartToMarker(fields, tail[1..], t);
      MarkerShift(fields, "." + tail[0], Dotted(tail[1..]), j);
      i := |"." + tail[0]| + j;
    }
  }

  /** A later marker of a fragment lies behind the first part of its path. */
  lemma LaterMarkerInTail(fields: seq<string>, key: string, parts: seq<string>, i: int)
    requires Plain(fields) && parts != [] && DotFree(parts[0]) && i > |key| && MarkerAt(fields, key + Dotted(parts), i)
    ensures i >= |key| + 1 + |parts[0]| && MarkerAt(fields, Dotted(parts[1..]), i - |key| - 1 - |parts[0]|)
  {
    var s, head := key + Dotted(parts), key + "." + parts[0];
    assert s == head + Dotted(parts[1..]);
    assert forall j | |key| < j < |head| :: s[j] == parts[0][j - |key| - 1];
    MarkerShift(fields, head, Dotted(parts[1..]), i - |head|);
  }

  lemma PartBehindKey(fields: seq<string>, key: string, parts: seq<string>, t: string) returns (i: nat)
    requires Plain(fields) && parts != [] && t in parts[1..] && StartsWithField(fields, t)
    ensures i > |key| && MarkerAt(fields, key + Dotted(parts), i)
  {
    var head := key + "." + parts[0];
    i := PartToMarker(fields, parts[1..], t);
    assert key + Dotted(parts) == head + Dotted(parts[1..]);
    MarkerShift(fields, head, Dotted(parts[1..]), i);
    i := |head| + i;
  }

  lemma MarkerAfterKey(fields: seq<string>, key: string, parts: seq<string>)
    requires Plain(fields) && parts != []
    ensures MarkerAt(fields, key + Dotted(parts), |key|) <==> StartsWithField(fields, parts[0])
  {
    MarkerShift(fields, key, Dotted(parts), 0);
    DottedHead(fields, parts);
  }

  /** The last marker is the one right after the key exactly when the first part of the path, and no
      other, starts with a field name. */
  lemma LastMarkerAfterKey(fields: seq<string>, key: string, parts: seq<string>)
    requires Plain(fields) && parts != [] && forall t | t in parts :: DotFree(t)
    ensures LastMarker(fields, key + Dotted(parts)) == |key| <==>
              StartsWithField(fields, parts[0]) && forall t | t in parts[1..] :: !StartsWithField(fields, t)
  {
    var last := LastMarker(fields, key + Dotted(parts));
    MarkerAfterKey(fields, key, parts);
    if t :| t in parts[1..] && StartsWithField(fields, t) {
      var i := PartBehindKey(fields, key, parts, t);
    } else if last > |key| {
      LaterMarkerInTail(fields, key, parts, last);
      var t := MarkerToPart(fields, parts[1..], last - |key| - 1 - |parts[0]|);
    }
  }

  /** The split returns exactly the key and path that were joined, even when the key itself holds
      dots and field names, if and only if the pair is unambiguous. */
  lemma SplitUndoesJoin(fields: seq<string>, key: string, parts: seq<string>)
    requires Plain(fields) && parts != []
    ensures SplitFragment(fields, Join([key] + parts)) == Some((key, parts)) <==> Unambiguous(fields, key, parts)
  {
    var s := key + Dotted(parts);
    assert Join([key] + parts) == s;
    if forall t | t in parts :: DotFree(t) {
      if AllDigits(First(key)) {
        NumericKey(fields, key, parts);
      } else {
        NamedKey(fields, key, parts);
      }
    }
  }

  lemma SplitAtMarker(fields: seq<string>, s: string, key: string, rest: string)
    requires !AllDigits(First(s)) && |key| < |s| && s[..|key|] == key && s[|key| + 1..] == rest
    ensures if key != "" && LastMarker(fields, s) == |key|
            then SplitFragment(fields, s) == Some((key, SplitDots(rest)))
            else SplitFragment(fields, s).Some? ==> |SplitFragment(fields, s).value.0| != |key|
  {
  }

  lemma AroundDot(a: string, b: string)
    ensures var s := a + "." + b; |a| < |s| && s[..|a|] == a && s[|a| + 1..] == b
  {
  }

  lemma DottedJoin(parts: seq<string>)
    requires parts != []
    ensures Dotted(parts) == "." + Join(parts)
  {
  }

  lemma FragmentParts(key: string, parts: seq<string>)
    requires parts != []
    ensures var s := key + Dotted(parts);
            |key| < |s| && s[..|key|] == key && s[|key| + 1..] == Join(parts) && First(s) == First(key)
  {
    DottedJoin(parts);
    var rest := Join(parts);
    assert key + ("." + rest) == key + "." + rest;
    AroundDot(key, rest);
    FirstOfConcat(key, rest);
  }

  lemma NamedKey(fields: seq<string>, key: string, parts: seq<string>)
    requires Plain(fields) && parts != [] && !AllDigits(First(key)) && forall t | t in parts :: DotFree(t)
    ensures SplitFragment(fields, key + Dotted(parts)) == Some((key, parts)) <==>
              key != "" && StartsWithField(fields, parts[0]) && forall t | t in parts[1..] :: !StartsWithField(fields, t)
  {
    FragmentParts(key, parts);
    SplitJoin(parts);
    LastMarkerAfterKey(fields, key, parts);
    SplitAtMarker(fields, key + Dotted(parts), key, Join(parts));
  }

  lemma OnlyDotAtEnd(fields: seq<string>, key: string)
    requires Plain(fields) && DotFree(key)
    ensures LastMarker(fields, key + ".") == -1
  {
    forall i
      ensures !MarkerAt(fields, key + ".", i)
    {
      if 0 <= i < |key| {
        assert (key + ".")[i] == key[i];
      } else if i == |key| {
        assert (key + ".")[i + 1..] == "";
      }
    }
  }

  lemma NumericKey(fields: seq<string>, key: string, parts: seq<string>)
    requires Plain(fields) && parts != [] && AllDigits(First(key)) && forall t | t in parts :: DotFree(t)
    ensures SplitFragment(fields, key + Dotted(parts)) == Some((key, parts)) <==> AllDigits(key) && parts != [""]
  {
    var rest := Join(parts);
    DottedJoin(parts);
    assert key + ("." + rest) == key + "." + rest;
    FirstOfConcat(key, rest);
    SplitJoin(parts);
    if AllDigits(key) {
      DigitsHaveNoDot(key);
    }
    if DotFree(key) && rest == "" {
      assert parts == [""];
      assert key + "." + rest == key + ".";
      OnlyDotAtEnd(fields, key);
    }
  }

  lemma {:induction false} FirstPart(s: string)
    ensures AfterFirst(s) != "" ==> s == First(s) + "." + AfterFirst(s)
  {
    if s != "" && s[0] != '.' {
      FirstPart(s[1..]);
      assert s == [s[0]] + s[1..];
    } else if s != "" {
      assert s == "" + [s[0]] + s[1..];
    }
  }

  /** Whatever a fragment is split into joins to the fragment again. */
  lemma SplitJoinsBack(fields: seq<string>, fragment: string)
    ensures match SplitFragment(fields, fragment)
            case None => true
            case Some((key, parts)) => parts != [] && Join([key] + parts) == fragment
  {
    match SplitFragment(fields, fragment)
    case None =>
    case Some((key, parts)) =>
      if AllDigits(First(fragment)) && AfterFirst(fragment) != "" {
        FirstPart(fragment);
      } else {
        var last := LastMarker(fields, fragment);
        assert fragment == fragment[..last] + "." + fragment[last + 1..];
      }
      JoinFirst(key, parts);
  }

  lemma JoinFirst(key: string, parts: seq<string>)
    requires parts != []
    ensures Join([key] + parts) == key + "." + Join(parts)
  {
    assert ([key] + parts)[1..] == parts;
    DottedJoin(parts);
    assert key + ("." + Join(parts)) == key + "." + Join(parts);
  }
}
