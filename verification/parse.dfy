/**
 * Parsing dependency strings `lhs->rhs` (`parseFDs`). The text is cut at the
 * first occurrence of the two-character marker `->`; each side is split on
 * commas. Strings without a marker are skipped. Nothing is trimmed and no
 * side is checked for emptiness.
 */
module Parse {
  import opened Schema
  import opened Attributes

  /** The marker `->` starts at position `i` of `s`. */
  predicate ArrowAt(s: string, i: int)
  {
    0 <= i && i + 1 < |s| && s[i] == '-' && s[i + 1] == '>'
  }

  predicate ContainsArrow(s: string)
  {
    exists i :: 0 <= i < |s| && ArrowAt(s, i)
  }

  /** Position of the first marker in `s`, or `None` (`fd.find("->")` and `npos`). */
  function FindArrow(s: string): (r: Option<nat>)
    ensures r.None? <==> !ContainsArrow(s)
    ensures r.Some? ==> ArrowAt(s, r.value) && forall j :: 0 <= j < r.value ==> !ArrowAt(s, j)
  {
    if |s| < 2 then None
    else if s[0] == '-' && s[1] == '>' then
      assert ArrowAt(s, 0);
      Some(0)
    else match FindArrow(s[1..])
      case None =>
        assert forall i :: ArrowAt(s, i) && i > 0 ==> ArrowAt(s[1..], i - 1);
        None
      case Some(k) =>
        assert forall j :: 0 < j <= k ==> (ArrowAt(s, j) <==> ArrowAt(s[1..], j - 1));
        assert ArrowAt(s, k + 1);
        Some(k + 1)
  }

  /** One dependency string: `None` when it has no marker. */
  function ParseFD(s: string): (r: Option<FD>)
    ensures r.None? <==> !ContainsArrow(s)
    ensures r.Some? ==> forall a :: a in r.value.lhs + r.value.rhs ==> ',' !in a
  {
    match FindArrow(s)
    case None => None
    case Some(p) => Some(FD(SplitAttributes(s[..p]), SplitAttributes(s[p + 2..])))
  }

  /**
   * The left side is the text before the first marker and the right side is
   * everything after it, further markers included.
   */
  lemma ParseAtFirstArrow(l: string, r: string)
    requires !ContainsArrow(l)
    ensures ParseFD(l + "->" + r) == Some(FD(SplitAttributes(l), SplitAttributes(r)))
  {
    var s := l + "->" + r;
    var p := |l|;
    assert ArrowAt(s, p);
    assert forall j :: 0 <= j < p ==> !ArrowAt(s, j) by {
      forall j | 0 <= j < p
        ensures !ArrowAt(s, j)
      {
        if j + 1 < p {
          assert !ArrowAt(l, j);
        } else {
          assert s[j + 1] == '-';
        }
      }
    }
    var q := FindArrow(s).value;
    assert q == p;
    assert s[..p] == l;
    assert s[p + 2..] == r;
  }

  /** The parsed dependencies, in input order (`parseFDs`). */
  function ParseFDs(strs: seq<string>): (r: seq<FD>)
    ensures |r| <= |strs|
  {
    if strs == [] then []
    else
      var rest := ParseFDs(strs[1..]);
      match ParseFD(strs[0])
      case None => rest
      case Some(fd) => [fd] + rest
  }

  /** A dependency is parsed exactly when some input string parses to it. */
  lemma {:induction false} ParseFDsMembers(strs: seq<string>)
    ensures forall fd :: fd in ParseFDs(strs) <==> exists s :: s in strs && ParseFD(s) == Some(fd)
  {
    if strs != [] {
      ParseFDsMembers(strs[1..]);
      assert forall s :: s in strs <==> s == strs[0] || s in strs[1..];
    }
  }

  /** Parsing distributes over concatenation of the input. */
  lemma {:induction false} ParseFDsAppend(a: seq<string>, b: seq<string>)
    ensures ParseFDs(a + b) == ParseFDs(a) + ParseFDs(b)
  {
    if a == [] {
      assert a + b == b;
    } else {
      assert (a + b)[1..] == a[1..] + b;
      ParseFDsAppend(a[1..], b);
    }
  }

  /** A string without a marker contributes nothing, wherever it stands. */
  lemma SkipsUnmarked(a: seq<string>, m: string, b: seq<string>)
    requires !ContainsArrow(m)
    ensures ParseFDs(a + [m] + b) == ParseFDs(a + b)
  {
    ParseFDsAppend(a + [m], b);
    ParseFDsAppend(a, [m]);
    ParseFDsAppend(a, b);
  }

  /** Each marked string yields exactly one dependency, so only unmarked ones shrink the output. */
  lemma {:induction false} ParseFDsCount(strs: seq<string>)
    ensures |ParseFDs(strs)| == |strs| ==> forall s :: s in strs ==> ContainsArrow(s)
    ensures (forall s :: s in strs ==> ContainsArrow(s)) ==> |ParseFDs(strs)| == |strs|
  {
    if strs != [] {
      ParseFDsCount(strs[1..]);
      assert forall s :: s in strs <==> s == strs[0] || s in strs[1..];
    }
  }

  /** A one-attribute left side without a marker and a one-attribute right side, neither holding `,`. */
  lemma ParseSimple(l: string, r: string)
    requires |l| > 0 && |r| > 0 && ',' !in l && ',' !in r && !ContainsArrow(l)
    ensures ParseFD(l + "->" + r) == Some(FD({l}, {r}))
  {
    ParseAtFirstArrow(l, r);
  }

  /** A text without `-` has no marker. */
  lemma DashFreeHasNoArrow(l: string)
    requires '-' !in l
    ensures !ContainsArrow(l)
  {
    forall i | 0 <= i < |l|
      ensures !ArrowAt(l, i)
    {
      assert l[i] in l;
    }
  }

  lemma ParseFDsCons(s: string, rest: seq<string>, fd: FD)
    requires ParseFD(s) == Some(fd)
    ensures ParseFDs([s] + rest) == [fd] + ParseFDs(rest)
  {
  }
}
