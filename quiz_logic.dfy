/** The matching engine of quiz_app/quiz_logic.py: the user vector built from
    the answers, the scan for the most similar character, and the choice of
    the questions. */
module QuizLogic {
  import opened Vectors

  datatype Option<T> = None | Some(value: T)

  /** The trained embedding model: `wv` maps node keys to their vectors and
      `vectorSize` is the declared dimensionality (`model.vector_size`). */
  datatype Model = Model(wv: map<string, Vector>, vectorSize: nat)

  /** Every stored vector has the declared length, as in any trained model. */
  predicate WellFormed(m: Model) {
    forall key :: key in m.wv ==> |m.wv[key]| == m.vectorSize
  }

  /** One item of the answers dictionary: (axis, answer label). A dictionary
      is given by its items in iteration order. */
  type Entry = (string, string)

  predicate NoDuplicates<T(==)>(s: seq<T>) {
    forall i, j :: 0 <= i < j < |s| ==> s[i] != s[j]
  }

  // ---------------------------------------------------------------------
  // Node keys

  /** The key of the answer node for label `answer` on axis `axis`. */
  function AnswerKey(answer: string, axis: string): string {
    "A:" + answer + ":" + axis
  }

  /** `node.startswith("C:")` */
  predicate IsCharacterNode(node: string) {
    |node| >= 2 && node[..2] == "C:"
  }

  /** An answer key is never a character node: the two families are disjoint. */
  lemma AnswerKeyIsNotCharacterNode(answer: string, axis: string)
    ensures AnswerKey(answer, axis)[..2] == "A:"
    ensures !IsCharacterNode(AnswerKey(answer, axis))
  {
  }

  /** In the key of a label without a colon, the first colon after the
      prefix is the one that ends the label. */
  lemma AnswerKeyLayout(answer: string, axis: string)
    requires ':' !in answer
    ensures var key := AnswerKey(answer, axis);
      |key| == |answer| + |axis| + 3 &&
      key[2 + |answer|] == ':' &&
      key[2..2 + |answer|] == answer &&
      key[3 + |answer|..] == axis &&
      forall i :: 2 <= i < 2 + |answer| ==> key[i] != ':'
  {
    var key := AnswerKey(answer, axis);
    assert key == "A:" + answer + ":" + axis;
    forall i | 2 <= i < 2 + |answer| ensures key[i] != ':' {
      assert key[i] == answer[i - 2];
    }
  }

  /** Different (label, axis) pairs give different keys when the labels
      contain no colon, as none of the five answer options does. */
  lemma AnswerKeyInjective(a1: string, x1: string, a2: string, x2: string)
    requires ':' !in a1 && ':' !in a2
    requires AnswerKey(a1, x1) == AnswerKey(a2, x2)
    ensures a1 == a2 && x1 == x2
  {
    AnswerKeyLayout(a1, x1);
    AnswerKeyLayout(a2, x2);
    assert |a1| == |a2|;
  }

  // ---------------------------------------------------------------------
  // The user vector

  predicate Resolves(m: Model, e: Entry) {
    AnswerKey(e.1, e.0) in m.wv
  }

  /** The vectors of the answer items whose key is in the model, in
      iteration order. */
  function ResolvedVectors(m: Model, items: seq<Entry>): (vs: seq<Vector>)
    requires WellFormed(m)
    ensures AllOfLength(vs, m.vectorSize)
    ensures |vs| <= |items|
    decreases |items|
  {
    if items == [] then []
    else
      var e := items[|items| - 1];
      var key := AnswerKey(e.1, e.0);
      ResolvedVectors(m, items[..|items| - 1]) + (if key in m.wv then [m.wv[key]] else [])
  }

  /** The indices of the answer items whose key is in the model. */
  function ResolvedIndices(m: Model, items: seq<Entry>): set<nat> {
    set i: nat | i < |items| && Resolves(m, items[i])
  }

  /** The user vector: the mean of the resolved vectors, or the zero vector
      when no answer resolves. */
  function UserVector(m: Model, items: seq<Entry>): (u: Vector)
    requires WellFormed(m)
    ensures |u| == m.vectorSize
  {
    var vs := ResolvedVectors(m, items);
    if |vs| > 0 then Divide(Sum(vs, m.vectorSize), |vs| as real) else Zeros(m.vectorSize)
  }

  /** `calculate_user_vector`: accumulate the vectors of the resolving
      answer keys while counting them, then divide by the count when it is
      positive. */
  method CalculateUserVector(answers: seq<Entry>, model: Model) returns (userVector: Vector)
    requires WellFormed(model)
    ensures userVector == UserVector(model, answers)
    ensures |userVector| == model.vectorSize
  {
    userVector := Zeros(model.vectorSize);
    var validCount := 0;
    for i := 0 to |answers|
      invariant userVector == Sum(ResolvedVectors(model, answers[..i]), model.vectorSize)
      invariant validCount == |ResolvedVectors(model, answers[..i])|
    {
      var (axis, answer) := answers[i];
      var node := AnswerKey(answer, axis);
      assert answers[..i + 1][..i] == answers[..i];
      ghost var before := ResolvedVectors(model, answers[..i]);
      if node in model.wv {
        assert ResolvedVectors(model, answers[..i + 1]) == before + [model.wv[node]];
        ghost var v := model.wv[node];
        assert (before + [v])[..|before + [v]| - 1] == before;
        assert Sum(before + [v], model.vectorSize) == Add(Sum(before, model.vectorSize), v);
        userVector := Add(userVector, model.wv[node]);
        validCount := validCount + 1;
      } else {
        assert ResolvedVectors(model, answers[..i + 1]) == before + [] == before;
      }
    }
    assert answers[..|answers|] == answers;
    if validCount > 0 {
      userVector := Divide(userVector, validCount as real);
    }
  }

  lemma {:induction false} ResolvedVectorsAppend(m: Model, a: seq<Entry>, b: seq<Entry>)
    requires WellFormed(m)
    ensures ResolvedVectors(m, a + b) == ResolvedVectors(m, a) + ResolvedVectors(m, b)
    decreases |b|
  {
    if b == [] {
      assert a + b == a;
    } else {
      assert (a + b)[..|a + b| - 1] == a + b[..|b| - 1];
      ResolvedVectorsAppend(m, a, b[..|b| - 1]);
    }
  }

  lemma ResolvedVectorsSingleton(m: Model, e: Entry)
    requires WellFormed(m)
    ensures ResolvedVectors(m, [e]) == if Resolves(m, e) then [m.wv[AnswerKey(e.1, e.0)]] else []
  {
    assert [e][..0] == [];
  }

  /** `valid_count` is the number of answer items whose key is in the model. */
  lemma {:induction false} ResolvedCount(m: Model, items: seq<Entry>)
    requires WellFormed(m)
    ensures |ResolvedVectors(m, items)| == |ResolvedIndices(m, items)|
    decreases |items|
  {
    if items == [] {
      assert ResolvedIndices(m, items) == {};
    } else {
      var n := |items| - 1;
      var init := items[..n];
      ResolvedCount(m, init);
      var before := ResolvedIndices(m, init);
      if Resolves(m, items[n]) {
        assert ResolvedIndices(m, items) == before + {n};
      } else {
        assert ResolvedIndices(m, items) == before;
      }
    }
  }

  /** When no answer resolves (an empty dictionary included), the user vector
      is the zero vector of the declared length. */
  lemma NothingResolvedGivesZeroVector(m: Model, items: seq<Entry>)
    requires WellFormed(m)
    requires forall i :: 0 <= i < |items| ==> !Resolves(m, items[i])
    ensures UserVector(m, items) == Zeros(m.vectorSize)
    ensures IsZero(UserVector(m, items))
  {
    ResolvedCount(m, items);
    assert ResolvedIndices(m, items) == {};
  }

  /** An item whose key is not in the model (a label outside the five
      options, say) is skipped: removing it changes nothing. */
  lemma UnresolvedItemIsSkipped(m: Model, a: seq<Entry>, e: Entry, b: seq<Entry>)
    requires WellFormed(m)
    requires !Resolves(m, e)
    ensures UserVector(m, a + [e] + b) == UserVector(m, a + b)
  {
    ResolvedVectorsAppend(m, a + [e], b);
    ResolvedVectorsAppend(m, a, [e]);
    ResolvedVectorsAppend(m, a, b);
    ResolvedVectorsSingleton(m, e);
    assert ResolvedVectors(m, a) + [] == ResolvedVectors(m, a);
  }

  /** Taking one item out of the middle of the list and putting it last
      leaves the same vectors, counted with multiplicity. */
  lemma ResolvedVectorsRemoveAt(m: Model, b: seq<Entry>, j: nat)
    requires WellFormed(m) && j < |b|
    ensures multiset(ResolvedVectors(m, b))
         == multiset(ResolvedVectors(m, b[..j] + b[j + 1..])) + multiset(ResolvedVectors(m, [b[j]]))
  {
    var left, x, right := b[..j], b[j], b[j + 1..];
    assert b == left + [x] + right;
    ResolvedVectorsAppend(m, left + [x], right);
    ResolvedVectorsAppend(m, left, [x]);
    ResolvedVectorsAppend(m, left, right);
  }

  lemma {:induction false} ResolvedVectorsPermutation(m: Model, a: seq<Entry>, b: seq<Entry>)
    requires WellFormed(m)
    requires multiset(a) == multiset(b)
    ensures multiset(ResolvedVectors(m, a)) == multiset(ResolvedVectors(m, b))
    decreases |a|
  {
    if a == [] {
      assert |b| == |multiset(b)| == 0;
    } else {
      var x := a[|a| - 1];
      assert x in multiset(b);
      var j :| 0 <= j < |b| && b[j] == x;
      MultisetRemoveAt(a, b, j);
      ResolvedVectorsPermutation(m, a[..|a| - 1], b[..j] + b[j + 1..]);
      assert a == a[..|a| - 1] + [x];
      ResolvedVectorsAppend(m, a[..|a| - 1], [x]);
      ResolvedVectorsRemoveAt(m, b, j);
    }
  }

  /** The user vector does not depend on the order in which the items are
      visited. */
  lemma UserVectorOrderIndependent(m: Model, a: seq<Entry>, b: seq<Entry>)
    requires WellFormed(m)
    requires multiset(a) == multiset(b)
    ensures UserVector(m, a) == UserVector(m, b)
  {
    ResolvedVectorsPermutation(m, a, b);
    var va, vb := ResolvedVectors(m, a), ResolvedVectors(m, b);
    assert |va| == |multiset(va)| == |multiset(vb)| == |vb|;
    SumPermutation(va, vb, m.vectorSize);
  }

  lemma {:induction false} DistinctOccurrences<T>(s: seq<T>, x: T)
    requires NoDuplicates(s)
    ensures multiset(s)[x] == if x in s then 1 else 0
    decreases |s|
  {
    if s != [] {
      var init := s[..|s| - 1];
      assert s == init + [s[|s| - 1]];
      DistinctOccurrences(init, x);
      assert x == s[|s| - 1] ==> x !in init;
    }
  }

  /** Two iteration orders of the same dictionary (each item listed once)
      give the same user vector. */
  lemma UserVectorSameDictionary(m: Model, a: seq<Entry>, b: seq<Entry>)
    requires WellFormed(m)
    requires NoDuplicates(a) && NoDuplicates(b)
    requires forall e :: e in a <==> e in b
    ensures UserVector(m, a) == UserVector(m, b)
  {
    forall e ensures multiset(a)[e] == multiset(b)[e] {
      DistinctOccurrences(a, e);
      DistinctOccurrences(b, e);
    }
    assert multiset(a) == multiset(b);
    UserVectorOrderIndependent(m, a, b);
  }

  // ---------------------------------------------------------------------
  // Candidates and the similarity scan

  /** `[n for n in graph.nodes if n.startswith("C:")]` */
  function CharacterNodes(nodes: seq<string>): (cs: seq<string>)
    ensures forall c :: c in cs ==> c in nodes && IsCharacterNode(c)
    ensures forall n :: n in nodes && IsCharacterNode(n) ==> n in cs
    decreases |nodes|
  {
    if nodes == [] then []
    else (if IsCharacterNode(nodes[0]) then [nodes[0]] else []) + CharacterNodes(nodes[1..])
  }

  /** The filter keeps the graph's order: it distributes over concatenation. */
  lemma {:induction false} CharacterNodesAppend(a: seq<string>, b: seq<string>)
    ensures CharacterNodes(a + b) == CharacterNodes(a) + CharacterNodes(b)
    decreases |a|
  {
    if a != [] {
      assert (a + b)[1..] == a[1..] + b;
      CharacterNodesAppend(a[1..], b);
    } else {
      assert a + b == b;
    }
  }

  /** Cosine similarity, taken as a given function of two vectors. */
  type Similarity = (Vector, Vector) -> real

  /** What the matching relies on about cosine similarity: it lies in
      [-1, 1], it is 0 when either vector has norm 0 (as the library
      computes it), and a non-zero vector is at similarity 1 to itself. */
  ghost predicate IsCosine(cos: Similarity) {
    && (forall u, v :: -1.0 <= cos(u, v) <= 1.0)
    && (forall u, v :: IsZero(u) || IsZero(v) ==> cos(u, v) == 0.0)
    && (forall v :: !IsZero(v) ==> cos(v, v) == 1.0)
  }

  /** A candidate's score: the similarity of its vector to the user vector. */
  function Score(m: Model, cos: Similarity, user: Vector, node: string): real
    requires node in m.wv
  {
    cos(m.wv[node], user)
  }

  /** The scan state: the best node so far (None before any) and its
      similarity (-1 before any). */
  datatype Best = Best(node: Option<string>, similarity: real)

  /** The argmax scan over the candidates, visited in order, replacing the
      best only on a strictly greater similarity. */
  function Scan(m: Model, cos: Similarity, user: Vector, cands: seq<string>): Best
    decreases |cands|
  {
    if cands == [] then Best(None, -1.0)
    else
      var prev := Scan(m, cos, user, cands[..|cands| - 1]);
      var node := cands[|cands| - 1];
      if node in m.wv && Score(m, cos, user, node) > prev.similarity
      then Best(Some(node), Score(m, cos, user, node))
      else prev
  }

  /** Index `k` holds the first candidate of maximal similarity among the
      candidates that are in the model. */
  ghost predicate IsFirstBest(m: Model, cos: Similarity, user: Vector, cands: seq<string>, k: int) {
    && 0 <= k < |cands|
    && cands[k] in m.wv
    && (forall j :: 0 <= j < |cands| && cands[j] in m.wv ==>
          Score(m, cos, user, cands[j]) <= Score(m, cos, user, cands[k]))
    && (forall j :: 0 <= j < k && cands[j] in m.wv ==>
          Score(m, cos, user, cands[j]) < Score(m, cos, user, cands[k]))
  }

  /** No candidate that is in the model scores above -1 (vacuously so when
      there is no such candidate). */
  ghost predicate NoneAboveSentinel(m: Model, cos: Similarity, user: Vector, cands: seq<string>) {
    forall j :: 0 <= j < |cands| && cands[j] in m.wv ==> Score(m, cos, user, cands[j]) <= -1.0
  }

  /** The first best candidate, when there is one, is unique. */
  lemma FirstBestIsUnique(m: Model, cos: Similarity, user: Vector, cands: seq<string>, k1: int, k2: int)
    requires IsFirstBest(m, cos, user, cands, k1) && IsFirstBest(m, cos, user, cands, k2)
    ensures k1 == k2
  {
  }

  /** The scanned similarity is at least -1 and at least every stored
      candidate's similarity. */
  lemma {:induction false} ScanIsUpperBound(m: Model, cos: Similarity, user: Vector, cands: seq<string>)
    ensures Scan(m, cos, user, cands).similarity >= -1.0
    ensures forall j :: 0 <= j < |cands| && cands[j] in m.wv ==>
      Score(m, cos, user, cands[j]) <= Scan(m, cos, user, cands).similarity
    decreases |cands|
  {
    if cands != [] {
      var init := cands[..|cands| - 1];
      ScanIsUpperBound(m, cos, user, init);
      assert forall j :: 0 <= j < |init| ==> cands[j] == init[j];
    }
  }

  /** The scan ends with no node exactly when no stored candidate scores
      above -1, and then the similarity is still -1. */
  lemma {:induction false} ScanFindsNothingIff(m: Model, cos: Similarity, user: Vector, cands: seq<string>)
    ensures Scan(m, cos, user, cands).node.None? <==> NoneAboveSentinel(m, cos, user, cands)
    ensures Scan(m, cos, user, cands).node.None? ==> Scan(m, cos, user, cands).similarity == -1.0
    decreases |cands|
  {
    if cands != [] {
      var init := cands[..|cands| - 1];
      ScanFindsNothingIff(m, cos, user, init);
      ScanIsUpperBound(m, cos, user, init);
      assert forall j :: 0 <= j < |init| ==> cands[j] == init[j];
    }
  }

  /** A node found by the scan is the first candidate of maximal similarity,
      it is in the model, and its similarity is the reported one. */
  lemma {:induction false} ScanFindsFirstBest(m: Model, cos: Similarity, user: Vector, cands: seq<string>)
    requires Scan(m, cos, user, cands).node.Some?
    ensures exists k :: (IsFirstBest(m, cos, user, cands, k) &&
      cands[k] == Scan(m, cos, user, cands).node.value &&
      Score(m, cos, user, cands[k]) == Scan(m, cos, user, cands).similarity > -1.0)
    decreases |cands|
  {
    var n := |cands| - 1;
    var init := cands[..n];
    var prev := Scan(m, cos, user, init);
    var node := cands[n];
    ScanIsUpperBound(m, cos, user, init);
    assert forall j :: 0 <= j < n ==> cands[j] == init[j];
    if node in m.wv && Score(m, cos, user, node) > prev.similarity {
      assert IsFirstBest(m, cos, user, cands, n);
    } else {
      ScanFindsFirstBest(m, cos, user, init);
      var k :| IsFirstBest(m, cos, user, init, k) && init[k] == prev.node.value &&
        Score(m, cos, user, init[k]) == prev.similarity > -1.0;
      assert IsFirstBest(m, cos, user, cands, k);
    }
  }

  // ---------------------------------------------------------------------
  // The character name

  /** No "C:" occurs anywhere in `s`. */
  predicate HasNoCharacterPrefix(s: string) {
    forall i :: 0 <= i < |s| - 1 ==> !(s[i] == 'C' && s[i + 1] == ':')
  }

  /** `s.replace("C:", "")`: every occurrence of "C:", found left to right,
      is removed. */
  function ReplaceCharacterPrefix(s: string): (r: string)
    ensures |r| <= |s|
    decreases |s|
  {
    if |s| >= 2 && s[..2] == "C:" then ReplaceCharacterPrefix(s[2..])
    else if s == [] then []
    else [s[0]] + ReplaceCharacterPrefix(s[1..])
  }

  /** A string in which "C:" does not occur is left as it is. */
  lemma {:induction false} ReplaceCharacterPrefixIdentity(s: string)
    requires HasNoCharacterPrefix(s)
    ensures ReplaceCharacterPrefix(s) == s
    decreases |s|
  {
    if s != [] {
      assert !(|s| >= 2 && s[..2] == "C:") by {
        if |s| >= 2 { assert !(s[0] == 'C' && s[1] == ':'); }
      }
      ReplaceCharacterPrefixIdentity(s[1..]);
    }
  }

  /** Every occurrence is removed, not only a leading one: a "C:" between
      two strings disappears and each side is cleaned separately. */
  lemma {:induction false} ReplaceCharacterPrefixAcross(a: string, b: string)
    ensures ReplaceCharacterPrefix(a + "C:" + b) == ReplaceCharacterPrefix(a) + ReplaceCharacterPrefix(b)
    decreases |a|
  {
    var s := a + "C:" + b;
    if a == [] {
      assert ReplaceCharacterPrefix(s) == ReplaceCharacterPrefix(b) by {
        assert s[..2] == "C:" && s[2..] == b;
      }
    } else if |a| >= 2 && a[..2] == "C:" {
      assert ReplaceCharacterPrefix(s) == ReplaceCharacterPrefix(a[2..] + "C:" + b) by {
        assert s[..2] == "C:" && s[2..] == a[2..] + "C:" + b;
      }
      ReplaceCharacterPrefixAcross(a[2..], b);
    } else {
      assert ReplaceCharacterPrefix(s) == [a[0]] + ReplaceCharacterPrefix(a[1..] + "C:" + b) by {
        assert s[..2] != "C:" by {
          if |a| == 1 { assert s[1] == 'C'; } else { assert s[..2] == a[..2]; }
        }
        assert s[1..] == a[1..] + "C:" + b;
      }
      ReplaceCharacterPrefixAcross(a[1..], b);
    }
  }

  /** The name of a character node whose name holds no "C:" is that name. */
  lemma CharacterName(name: string)
    requires HasNoCharacterPrefix(name)
    ensures IsCharacterNode("C:" + name)
    ensures ReplaceCharacterPrefix("C:" + name) == name
  {
    ReplaceCharacterPrefixAcross("", name);
    assert "" + "C:" + name == "C:" + name;
    ReplaceCharacterPrefixIdentity(name);
  }

  // ---------------------------------------------------------------------
  // find_matching_character

  /** The result for a finished scan: the winner's name, or the sentinel
      "Unknown" when nothing beat -1, with the scan's similarity. */
  function Outcome(b: Best): (string, real) {
    (if b.node.Some? then ReplaceCharacterPrefix(b.node.value) else "Unknown", b.similarity)
  }

  /** The (name, similarity) that `find_matching_character` returns for the
      given answers, model and graph node order. */
  function Match(answers: seq<Entry>, m: Model, nodes: seq<string>, cos: Similarity): (string, real)
    requires WellFormed(m)
  {
    Outcome(Scan(m, cos, UserVector(m, answers), CharacterNodes(nodes)))
  }

  /** `find_matching_character`, with the loaded model and the graph's node
      sequence passed in. */
  method FindMatchingCharacter(answers: seq<Entry>, model: Model, graphNodes: seq<string>, cos: Similarity)
    returns (name: string, similarity: real)
    requires WellFormed(model)
    ensures (name, similarity) == Match(answers, model, graphNodes, cos)
  {
    var userVector := CalculateUserVector(answers, model);
    var characterNodes := CharacterNodes(graphNodes);
    var bestCharacter: Option<string> := None;
    var bestSimilarity := -1.0;
    for i := 0 to |characterNodes|
      invariant Best(bestCharacter, bestSimilarity) == Scan(model, cos, userVector, characterNodes[..i])
    {
      var node := characterNodes[i];
      assert characterNodes[..i + 1][..i] == characterNodes[..i];
      if node in model.wv {
        var vec := model.wv[node];
        var sim := cos(vec, userVector);
        if sim > bestSimilarity {
          bestSimilarity := sim;
          bestCharacter := Some(node);
        }
      }
    }
    assert characterNodes[..|characterNodes|] == characterNodes;
    name := if bestCharacter.Some? then ReplaceCharacterPrefix(bestCharacter.value) else "Unknown";
    similarity := bestSimilarity;
  }

  /** The sentinel ("Unknown", -1) is returned when no candidate in the
      model scores above -1 (no candidate at all included). */
  lemma MatchSentinel(answers: seq<Entry>, m: Model, nodes: seq<string>, cos: Similarity)
    requires WellFormed(m)
    requires NoneAboveSentinel(m, cos, UserVector(m, answers), CharacterNodes(nodes))
    ensures Match(answers, m, nodes, cos) == ("Unknown", -1.0)
  {
    ScanFindsNothingIff(m, cos, UserVector(m, answers), CharacterNodes(nodes));
  }

  /** When some candidate in the model scores above -1, the name is that of
      the first candidate of maximal similarity with every "C:" removed, that
      candidate is a character node of the graph that is in the model, and
      the similarity is its score. */
  lemma MatchWinner(answers: seq<Entry>, m: Model, nodes: seq<string>, cos: Similarity)
    requires WellFormed(m)
    requires !NoneAboveSentinel(m, cos, UserVector(m, answers), CharacterNodes(nodes))
    ensures exists k :: (IsFirstBest(m, cos, UserVector(m, answers), CharacterNodes(nodes), k) &&
      CharacterNodes(nodes)[k] in nodes && IsCharacterNode(CharacterNodes(nodes)[k]) &&
      Match(answers, m, nodes, cos).0 == ReplaceCharacterPrefix(CharacterNodes(nodes)[k]) &&
      Match(answers, m, nodes, cos).1 == Score(m, cos, UserVector(m, answers), CharacterNodes(nodes)[k]) > -1.0)
  {
    var cands := CharacterNodes(nodes);
    var user := UserVector(m, answers);
    var b := Scan(m, cos, user, cands);
    ScanFindsNothingIff(m, cos, user, cands);
    ScanFindsFirstBest(m, cos, user, cands);
    var k :| IsFirstBest(m, cos, user, cands, k) && cands[k] == b.node.value &&
      Score(m, cos, user, cands[k]) == b.similarity > -1.0;
    assert cands[k] in cands;
  }

  /** With cosine similarity the reported similarity lies in [-1, 1]. */
  lemma MatchSimilarityBounds(answers: seq<Entry>, m: Model, nodes: seq<string>, cos: Similarity)
    requires WellFormed(m) && IsCosine(cos)
    ensures -1.0 <= Match(answers, m, nodes, cos).1 <= 1.0
  {
    var cands := CharacterNodes(nodes);
    var user := UserVector(m, answers);
    ScanIsUpperBound(m, cos, user, cands);
    if Scan(m, cos, user, cands).node.Some? {
      ScanFindsFirstBest(m, cos, user, cands);
    } else {
      ScanFindsNothingIff(m, cos, user, cands);
    }
  }

  /** Index `k` holds the first candidate that is in the model. */
  ghost predicate IsFirstStored(m: Model, cands: seq<string>, k: int) {
    0 <= k < |cands| && cands[k] in m.wv && forall j :: 0 <= j < k ==> cands[j] !in m.wv
  }

  /** When no answer resolves, every stored candidate scores 0 against the
      zero user vector, so the first candidate in the model wins with
      similarity 0; the sentinel comes back only when no candidate is in
      the model. */
  lemma MatchWithNothingResolved(answers: seq<Entry>, m: Model, nodes: seq<string>, cos: Similarity)
    requires WellFormed(m) && IsCosine(cos)
    requires forall i :: 0 <= i < |answers| ==> !Resolves(m, answers[i])
    ensures (forall j :: 0 <= j < |CharacterNodes(nodes)| ==> CharacterNodes(nodes)[j] !in m.wv) ==>
      Match(answers, m, nodes, cos) == ("Unknown", -1.0)
    ensures forall k :: IsFirstStored(m, CharacterNodes(nodes), k) ==>
      Match(answers, m, nodes, cos) == (ReplaceCharacterPrefix(CharacterNodes(nodes)[k]), 0.0)
  {
    var cands := CharacterNodes(nodes);
    var user := UserVector(m, answers);
    NothingResolvedGivesZeroVector(m, answers);
    assert forall j :: 0 <= j < |cands| && cands[j] in m.wv ==> Score(m, cos, user, cands[j]) == 0.0;
    var b := Scan(m, cos, user, cands);
    ScanFindsNothingIff(m, cos, user, cands);
    if b.node.Some? {
      ScanFindsFirstBest(m, cos, user, cands);
      var k' :| IsFirstBest(m, cos, user, cands, k') && cands[k'] == b.node.value &&
        Score(m, cos, user, cands[k']) == b.similarity > -1.0;
      assert IsFirstStored(m, cands, k');
      forall k | IsFirstStored(m, cands, k) ensures k == k' { }
    }
  }

  // ---------------------------------------------------------------------
  // Worked example: a two-dimensional model with two characters

  function ExampleModel(): Model {
    Model(map["A:Agree:Q1" := [1.0, 0.0], "A:Disagree:Q1" := [-1.0, 0.0],
              "C:Alice" := [1.0, 0.0], "C:Bob" := [0.0, 1.0]], 2)
  }

  lemma ExampleCandidates()
    ensures CharacterNodes(["C:Alice", "C:Bob"]) == ["C:Alice", "C:Bob"]
  {
    assert IsCharacterNode("C:Alice") && IsCharacterNode("C:Bob");
    assert ["C:Alice", "C:Bob"][1..] == ["C:Bob"];
    assert ["C:Bob"][1..] == [];
  }

  lemma ExampleAgreeUserVector()
    ensures UserVector(ExampleModel(), [("Q1", "Agree")]) == [1.0, 0.0]
  {
    var m := ExampleModel();
    var answers := [("Q1", "Agree")];
    assert AnswerKey("Agree", "Q1") == "A:Agree:Q1";
    assert answers[..0] == [];
    var vs := ResolvedVectors(m, answers);
    assert vs == [[1.0, 0.0]];
    assert vs[..0] == [];
    assert Sum(vs, 2) == Add(Zeros(2), [1.0, 0.0]);
  }

  /** Answering "Agree" on Q1 matches Alice with similarity 1. */
  lemma ExampleAgreeMatchesAlice(cos: Similarity)
    requires IsCosine(cos)
    ensures Match([("Q1", "Agree")], ExampleModel(), ["C:Alice", "C:Bob"], cos) == ("Alice", 1.0)
  {
    var m := ExampleModel();
    ExampleAgreeUserVector();
    ExampleCandidates();
    var user: Vector := [1.0, 0.0];
    assert !IsZero(user) by { assert user[0] != 0.0; }
    var cands := ["C:Alice", "C:Bob"];
    assert m.wv["C:Alice"] == user;
    assert cands[..1] == ["C:Alice"] && cands[..1][..0] == [];
    assert Scan(m, cos, user, ["C:Alice"]) == Best(Some("C:Alice"), 1.0);
    assert Scan(m, cos, user, cands) == Best(Some("C:Alice"), 1.0);
    CharacterName("Alice");
  }

  /** A label that does not resolve is not the sentinel case: the zero user
      vector scores 0 against every character and Alice, listed first, wins
      with similarity 0. */
  lemma ExampleUnknownLabelMatchesFirstCharacter(cos: Similarity)
    requires IsCosine(cos)
    ensures Match([("Q1", "UnknownLabel")], ExampleModel(), ["C:Alice", "C:Bob"], cos) == ("Alice", 0.0)
  {
    var m := ExampleModel();
    var answers := [("Q1", "UnknownLabel")];
    assert AnswerKey("UnknownLabel", "Q1") !in m.wv by {
      assert AnswerKey("UnknownLabel", "Q1")[2] == 'U';
    }
    ExampleCandidates();
    var cands := CharacterNodes(["C:Alice", "C:Bob"]);
    MatchWithNothingResolved(answers, m, ["C:Alice", "C:Bob"], cos);
    assert cands[0] in m.wv;
    CharacterName("Alice");
  }

  // ---------------------------------------------------------------------
  // get_random_questions

  /** What `random.sample` returns: a list of distinct keys, or the
      ValueError it raises when the count is negative or larger than the
      population. */
  datatype Sample<K> = Questions(keys: seq<K>) | ValueError

  /** Some listing of a finite set, each element once. */
  ghost function Listing<K(!new)>(s: set<K>): (r: seq<K>)
    ensures |r| == |s| && NoDuplicates(r)
    ensures forall x :: x in r <==> x in s
    decreases |s|
  {
    if s == {} then []
    else
      var x :| x in s;
      [x] + Listing(s - {x})
  }

  /** `get_random_questions`: `count` pairwise-distinct keys of `statements`,
      chosen arbitrarily. */
  method GetRandomQuestions<K(!new)>(statements: map<K, string>, count: int := 10) returns (r: Sample<K>)
    ensures r.ValueError? <==> count < 0 || count > |statements|
    ensures r.Questions? ==> |r.keys| == count
    ensures r.Questions? ==> NoDuplicates(r.keys)
    ensures r.Questions? ==> forall q :: q in r.keys ==> q in statements
  {
    if count < 0 || count > |statements| {
      return ValueError;
    }
    ghost var all := Listing(statements.Keys);
    assert |statements.Keys| == |statements|;
    ghost var prefix := all[..count];
    assert forall q :: q in prefix ==> q in statements;
    var keys :| |keys| == count && NoDuplicates(keys) && forall q :: q in keys ==> q in statements;
    r := Questions(keys);
  }
}
