/**
 * The text operations the icon picker performs on SVG markup, stated over
 * `seq<char>` with the meaning ECMAScript gives them:
 *  - `s.replace(/<svg/, t)`: replace the first occurrence of a literal,
 *    expanding the `$` patterns of the replacement text;
 *  - `s.replace(/'/g, '')`: remove every occurrence of one character;
 *  - `/M(.*?)"/.exec(s)` and `s.replace(/M.*?"/, '')` for a marker `M`: the
 *    leftmost occurrence of `M` followed by a closing quote that can be
 *    reached without crossing a line terminator (`.` does not match one).
 * The single-match operations are given by reference predicates
 * (`FirstOccurrence`, `FirstQuoted`, `FirstDeleted`) and functions whose
 * contracts tie their results to them; the global removal is given by
 * `RemoveAll`'s contract together with `RemoveAllAppend`, which fixes the
 * order of the characters kept.
 */
module SvgText {
  import opened Wrappers

  /** The characters an ECMAScript `.` does not match. */
  predicate IsLineTerminator(c: char) {
    c == '\n' || c == '\r' || c == '\U{2028}' || c == '\U{2029}'
  }

  /** `p` occurs in `s` starting at index `i`. */
  predicate OccursAt(s: string, p: string, i: nat) {
    i + |p| <= |s| && s[i..i + |p|] == p
  }

  /** `i` is the leftmost occurrence of `p` in `s`. */
  predicate FirstOccurrence(s: string, p: string, i: nat) {
    OccursAt(s, p, i) && forall j: nat :: j < i ==> !OccursAt(s, p, j)
  }

  /** Text a lazy `.*?"` runs across whole: no quote and no line terminator. */
  predicate Unquoted(v: string) {
    forall i :: 0 <= i < |v| ==> v[i] != '"' && !IsLineTerminator(v[i])
  }

  /** `s[q]` is the first quote at or after `from`, and no line terminator comes before it. */
  predicate ClosesAt(s: string, from: nat, q: nat) {
    from <= q < |s| && s[q] == '"' &&
    forall k :: from <= k < q ==> s[k] != '"' && !IsLineTerminator(s[k])
  }

  /** `/M.*?"/` matches `s[p..q + 1]`: marker `m` at `p`, its closing quote at `q`. */
  predicate Quoted(s: string, m: string, p: nat, q: nat) {
    OccursAt(s, m, p) && ClosesAt(s, p + |m|, q)
  }

  /** The match `exec` reports: the leftmost start at which `Quoted` holds. */
  ghost predicate FirstQuoted(s: string, m: string, p: nat, q: nat) {
    Quoted(s, m, p, q) && forall p': nat, q': nat :: p' < p ==> !Quoted(s, m, p', q')
  }

  /** `r` is `s` with the match `exec` reports for `/M.*?"/` deleted, or `s` itself when nothing matches. */
  ghost predicate FirstDeleted(s: string, m: string, r: string) {
    (forall p: nat, q: nat :: FirstQuoted(s, m, p, q) ==> r == s[..p] + s[q + 1..])
    && ((forall p: nat, q: nat :: !Quoted(s, m, p, q)) ==> r == s)
  }

  /** The first index at or after `from` holding `p`. */
  function FindFrom(s: string, p: string, from: nat): (r: Option<nat>)
    ensures r.Some? ==> from <= r.value && OccursAt(s, p, r.value)
    ensures r.Some? ==> forall j: nat :: from <= j < r.value ==> !OccursAt(s, p, j)
    ensures r.None? ==> forall j: nat :: from <= j ==> !OccursAt(s, p, j)
    decreases |s| - from
  {
    if |s| < from + |p| then None
    else if s[from..from + |p|] == p then Some(from)
    else FindFrom(s, p, from + 1)
  }

  function Find(s: string, p: string): (r: Option<nat>)
    ensures r.Some? ==> FirstOccurrence(s, p, r.value)
    ensures r.None? <==> forall j: nat :: !OccursAt(s, p, j)
  {
    FindFrom(s, p, 0)
  }

  /**
   * The text `String.prototype.replace` inserts for `repl` when the pattern has
   * no capture groups: `$$` gives `$`, `$&` the matched text, `` $` `` the text
   * before the match, `$'` the text after it; every other `$` is literal.
   */
  function Substitution(repl: string, before: string, matched: string, after: string): (r: string)
    ensures '$' !in repl ==> r == repl
    decreases |repl|
  {
    if repl == [] then []
    else if |repl| >= 2 && repl[0] == '$' && repl[1] in "$&`'" then
      var piece :=
        if repl[1] == '$' then "$"
        else if repl[1] == '&' then matched
        else if repl[1] == '`' then before
        else after;
      piece + Substitution(repl[2..], before, matched, after)
    else
      [repl[0]] + Substitution(repl[1..], before, matched, after)
  }

  /** `s.replace(p, repl)` for a literal pattern `p` without the `g` flag. */
  function ReplaceFirst(s: string, p: string, repl: string): (r: string)
    ensures forall k: nat :: FirstOccurrence(s, p, k) ==>
      r == s[..k] + Substitution(repl, s[..k], p, s[k + |p|..]) + s[k + |p|..]
    ensures (forall k: nat :: !OccursAt(s, p, k)) ==> r == s
  {
    match Find(s, p)
    case None => s
    case Some(k) => s[..k] + Substitution(repl, s[..k], p, s[k + |p|..]) + s[k + |p|..]
  }

  /** Text that starts with the pattern has its first occurrence at index 0. */
  lemma FindAtStart(s: string, p: string)
    requires OccursAt(s, p, 0)
    ensures Find(s, p) == Some(0)
  {
    var found := Find(s, p);
    assert found.Some?;
    assert !(0 < found.value);
  }

  /** `replace` on text that starts with the pattern substitutes at index 0, with nothing before it. */
  lemma ReplaceAtStart(s: string, p: string, repl: string)
    requires OccursAt(s, p, 0)
    ensures ReplaceFirst(s, p, repl) == Substitution(repl, [], p, s[|p|..]) + s[|p|..]
  {
    ReplaceAtZero(s, p, repl);
    NothingBefore(s, repl, p, s[|p|..]);
  }

  /** `ReplaceFirst`'s result for an occurrence at index 0. */
  lemma ReplaceAtZero(s: string, p: string, repl: string)
    requires OccursAt(s, p, 0)
    ensures ReplaceFirst(s, p, repl) == s[..0] + Substitution(repl, s[..0], p, s[|p|..]) + s[|p|..]
  {
    FindAtStart(s, p);
  }

  /** The empty prefix of a text contributes nothing, whether inserted or substituted for `` $` ``. */
  lemma NothingBefore(s: string, repl: string, matched: string, after: string)
    ensures s[..0] + Substitution(repl, s[..0], matched, after) + after == Substitution(repl, [], matched, after) + after
  {
    assert s[..0] == [];
  }

  /** `s.replace(/c/g, '')`: every `c` removed, every other character kept. */
  function RemoveAll(s: string, c: char): (r: string)
    ensures c !in r
    ensures forall x :: x != c ==> multiset(r)[x] == multiset(s)[x]
    ensures c !in s ==> r == s
  {
    if s == [] then []
    else
      assert s == [s[0]] + s[1..];
      if s[0] == c then RemoveAll(s[1..], c) else [s[0]] + RemoveAll(s[1..], c)
  }

  /**
   * Removal keeps the order of what remains: it works piece by piece, so
   * with the one-character cases of `RemoveAll`'s contract (a `c` goes, any
   * other character stays) the result is `s` with its `c`s deleted in place.
   */
  lemma {:induction false} RemoveAllAppend(a: string, b: string, c: char)
    ensures RemoveAll(a + b, c) == RemoveAll(a, c) + RemoveAll(b, c)
    decreases |a|
  {
    if a == [] {
      assert a + b == b;
    } else {
      assert (a + b)[0] == a[0] && (a + b)[1..] == a[1..] + b;
      RemoveAllAppend(a[1..], b, c);
    }
  }

  /** Where the lazy `.*?"` that starts at `from` stops: the next quote, unless a line terminator comes first. */
  function QuoteEnd(s: string, from: nat): (r: Option<nat>)
    ensures r.Some? ==> ClosesAt(s, from, r.value)
    ensures r.None? ==> forall q: nat :: !ClosesAt(s, from, q)
    decreases |s| - from
  {
    if |s| <= from then None
    else if s[from] == '"' then Some(from)
    else if IsLineTerminator(s[from]) then None
    else
      var r := QuoteEnd(s, from + 1);
      assert forall q: nat :: ClosesAt(s, from, q) ==> ClosesAt(s, from + 1, q);
      r
  }

  /** The regular-expression search for `/M.*?"/` that starts trying at index `from`. */
  function MatchQuoted(s: string, m: string, from: nat): (r: Option<(nat, nat)>)
    ensures r.Some? ==> from <= r.value.0 && Quoted(s, m, r.value.0, r.value.1)
    ensures r.Some? ==> forall p: nat, q: nat :: from <= p < r.value.0 ==> !Quoted(s, m, p, q)
    ensures r.None? ==> forall p: nat, q: nat :: from <= p ==> !Quoted(s, m, p, q)
    decreases |s| - from
  {
    if |s| <= from + |m| then None
    else
      var close := if s[from..from + |m|] == m then QuoteEnd(s, from + |m|) else None;
      if close.Some? then Some((from, close.value)) else MatchQuoted(s, m, from + 1)
  }

  lemma ClosesAtUnique(s: string, from: nat, q: nat, q': nat)
    requires ClosesAt(s, from, q) && ClosesAt(s, from, q')
    ensures q == q'
  {
  }

  /** `exec` finds the leftmost match, and there is only one. */
  lemma MatchQuotedIsFirst(s: string, m: string, p: nat, q: nat)
    requires FirstQuoted(s, m, p, q)
    ensures MatchQuoted(s, m, 0) == Some((p, q))
  {
    var r := MatchQuoted(s, m, 0);
    assert r.Some?;
    var (p0, q0) := r.value;
    assert !(p0 < p);
    assert !(p < p0);
    ClosesAtUnique(s, p + |m|, q, q0);
  }

  /** The first capture group of `/M(.*?)"/.exec(s)`, or `''` when nothing matches. */
  function Capture(s: string, m: string): (r: string)
    ensures forall p: nat, q: nat :: FirstQuoted(s, m, p, q) ==> r == s[p + |m|..q]
    ensures (forall p: nat, q: nat :: !Quoted(s, m, p, q)) ==> r == []
  {
    match MatchQuoted(s, m, 0)
    case None => []
    case Some((p, q)) =>
      assert forall p': nat, q': nat :: FirstQuoted(s, m, p', q') ==> p' == p && q' == q by {
        forall p': nat, q': nat | FirstQuoted(s, m, p', q') ensures p' == p && q' == q {
          MatchQuotedIsFirst(s, m, p', q');
        }
      }
      s[p + |m|..q]
  }

  /** `s.replace(/M.*?"/, '')`: the leftmost match deleted, the rest of `s` kept. */
  function DeleteFirstQuoted(s: string, m: string): (r: string)
    ensures FirstDeleted(s, m, r)
  {
    match MatchQuoted(s, m, 0)
    case None => s
    case Some((p, q)) =>
      assert forall p': nat, q': nat :: FirstQuoted(s, m, p', q') ==> p' == p && q' == q by {
        forall p': nat, q': nat | FirstQuoted(s, m, p', q') ensures p' == p && q' == q {
          MatchQuotedIsFirst(s, m, p', q');
        }
      }
      s[..p] + s[q + 1..]
  }

  /** Deleting the first match has one outcome. */
  lemma FirstDeletedUnique(s: string, m: string, r: string, r': string)
    requires FirstDeleted(s, m, r) && FirstDeleted(s, m, r')
    ensures r == r'
  {
    match MatchQuoted(s, m, 0)
    case None =>
    case Some((p, q)) =>
      assert FirstQuoted(s, m, p, q);
  }

  /**
   * Reading a capture back: when the marker's first occurrence is followed by
   * `v` and a quote, and `v` holds no quote and no line terminator, the
   * capture is exactly `v`.
   */
  lemma CaptureOf(s: string, m: string, p: nat, v: string)
    requires FirstOccurrence(s, m, p)
    requires p + |m| + |v| < |s| && s[p + |m|..p + |m| + |v|] == v && s[p + |m| + |v|] == '"'
    requires Unquoted(v)
    ensures Capture(s, m) == v
  {
    var q := p + |m| + |v|;
    forall k | p + |m| <= k < q ensures s[k] != '"' && !IsLineTerminator(s[k]) {
      assert s[k] == v[k - p - |m|];
    }
    assert Quoted(s, m, p, q);
    assert FirstQuoted(s, m, p, q);
  }

  /**
   * A marker whose only quote is its last character starts at its first
   * occurrence `p` when no quote comes before that occurrence's own quote.
   */
  lemma FirstByQuote(s: string, m: string, p: nat)
    requires m != [] && m[|m| - 1] == '"' && OccursAt(s, m, p)
    requires '"' !in s[..p + |m| - 1]
    ensures FirstOccurrence(s, m, p)
  {
    forall j: nat | j < p ensures !OccursAt(s, m, j) {
      assert s[..p + |m| - 1][j + |m| - 1] == s[j + |m| - 1];
      assert s[j..j + |m|][|m| - 1] == s[j + |m| - 1];
    }
  }

  /** A marker ending in a quote does not occur where the text has no quote at its end. */
  lemma NoClosingQuote(s: string, m: string, j: nat)
    requires m != [] && m[|m| - 1] == '"'
    requires j + |m| - 1 < |s| ==> s[j + |m| - 1] != '"'
    ensures !OccursAt(s, m, j)
  {
    if j + |m| <= |s| {
      assert s[j..j + |m|][|m| - 1] == s[j + |m| - 1];
    }
  }

  /** A text lacking one of the marker's characters holds no occurrence of it. */
  lemma NoOccurrenceWithout(s: string, m: string, c: char)
    requires c in m && c !in s
    ensures forall j: nat :: !OccursAt(s, m, j)
  {
    forall j: nat | j + |m| <= |s| ensures !OccursAt(s, m, j) {
      assert c in s[j..j + |m|] ==> c in s;
    }
  }

  /** A leading `$&` in the replacement text expands to the matched text. */
  lemma MatchedPattern(tail: string, before: string, matched: string, after: string)
    ensures Substitution("$&" + tail, before, matched, after) == matched + Substitution(tail, before, matched, after)
  {
    var repl := "$&" + tail;
    assert repl[0] == '$' && repl[1] == '&' && repl[1] in "$&`'";
    assert repl[2..] == tail;
  }

  /** Text without `$` passes through `Substitution` unchanged in front of what follows. */
  lemma {:induction false} SubstitutionPlainPrefix(plain: string, rest: string, before: string, matched: string, after: string)
    requires '$' !in plain
    ensures Substitution(plain + rest, before, matched, after) == plain + Substitution(rest, before, matched, after)
    decreases |plain|
  {
    if plain != [] {
      var whole := plain + rest;
      assert whole[0] == plain[0] != '$' && '$' !in plain[1..];
      assert whole[1..] == plain[1..] + rest;
      assert Substitution(whole, before, matched, after)
        == [plain[0]] + Substitution(plain[1..] + rest, before, matched, after);
      assert plain == [plain[0]] + plain[1..];
      SubstitutionPlainPrefix(plain[1..], rest, before, matched, after);
    } else {
      assert plain + rest == rest;
    }
  }
}
