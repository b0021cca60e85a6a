/**
 * One row of a tabular dataset, viewed as an ordered sequence of
 * (column name, value) pairs, with the two operations the payload builder
 * performs on it: lookup by label (`row["result_code"]`) and label removal
 * with `errors="ignore"` (`row.drop([...], errors="ignore")`).
 * Cell values are opaque: the type parameter V.
 */
module Rows {
  import opened Wrappers

  /** One cell of a row: the column label and the value stored under it. */
  datatype Field<V> = Field(name: string, value: V)

  /** A row, in column order. */
  type Row<V> = seq<Field<V>>

  /** The two exceptions the payload builder can raise. */
  datatype Error =
    | KeyError(key: string)    // a label lookup found no such column
    | IndexError(index: nat)   // a positional column access past the end

  /** The labels of a row, in column order. */
  function Names<V>(row: Row<V>): (names: seq<string>)
    ensures |names| == |row|
    ensures forall i :: 0 <= i < |row| ==> names[i] == row[i].name
  {
    seq(|row|, i requires 0 <= i < |row| => row[i].name)
  }

  /** No label occurs twice in the row. */
  ghost predicate UniqueNames<V>(row: Row<V>)
  {
    forall i, j :: 0 <= i < j < |row| ==> row[i].name != row[j].name
  }

  /**
   * `row[key]`: the value under label `key`, or a KeyError naming `key`
   * when the row has no such label.
   */
  function Lookup<V>(row: Row<V>, key: string): (r: Result<V, Error>)
    ensures r.Success? <==> key in Names(row)
    ensures r.Success? ==> exists i :: 0 <= i < |row| && row[i] == Field(key, r.value)
    ensures r.Failure? ==> r.error == KeyError(key)
  {
    if row == [] then Failure(KeyError(key))
    else if row[0].name == key then Success(row[0].value)
    else Lookup(row[1..], key)
  }

  /** With unique labels, the lookup returns exactly the value in that column. */
  lemma {:induction false} LookupAt<V>(row: Row<V>, i: nat)
    requires UniqueNames(row)
    requires i < |row|
    ensures Lookup(row, row[i].name) == Success(row[i].value)
  {
    if i > 0 {
      assert row[0].name != row[i].name;
      assert row[1..][i - 1] == row[i];
      LookupAt(row[1..], i - 1);
    }
  }

  /**
   * `row.drop(labels, errors="ignore")`: every field whose label is in
   * `labels` is removed; labels that are absent, or listed twice, are
   * ignored. The remaining fields keep their order.
   */
  function Drop<V>(row: Row<V>, labels: seq<string>): (r: Row<V>)
    ensures |r| <= |row|
    ensures forall i :: 0 <= i < |r| ==> r[i] in row && r[i].name !in labels
    ensures forall i :: 0 <= i < |row| && row[i].name !in labels ==> row[i] in r
  {
    if row == [] then []
    else if row[0].name in labels then Drop(row[1..], labels)
    else [row[0]] + Drop(row[1..], labels)
  }

  /** Dropping works field by field: it distributes over concatenation. */
  lemma {:induction false} DropAppend<V>(a: Row<V>, b: Row<V>, labels: seq<string>)
    ensures Drop(a + b, labels) == Drop(a, labels) + Drop(b, labels)
  {
    if a != [] {
      assert (a + b)[0] == a[0];
      assert (a + b)[1..] == a[1..] + b;
      DropAppend(a[1..], b, labels);
    } else {
      assert a + b == b;
    }
  }

  /** Dropping the same labels a second time changes nothing. */
  lemma {:induction false} DropIdempotent<V>(row: Row<V>, labels: seq<string>)
    ensures Drop(Drop(row, labels), labels) == Drop(row, labels)
  {
    if row != [] {
      DropIdempotent(row[1..], labels);
      if row[0].name !in labels {
        var rest := Drop(row[1..], labels);
        assert ([row[0]] + rest)[0] == row[0];
        assert ([row[0]] + rest)[1..] == rest;
      }
    }
  }

  /**
   * Removing labels none of which is present is a no-op, and only then:
   * the drop leaves the row unchanged exactly when no label of the row is
   * among those dropped.
   */
  lemma {:induction false} DropUnchangedIff<V>(row: Row<V>, labels: seq<string>)
    ensures Drop(row, labels) == row <==> forall i :: 0 <= i < |row| ==> row[i].name !in labels
  {
    if forall i :: 0 <= i < |row| ==> row[i].name !in labels {
      if row != [] {
        assert row[0].name !in labels;
        forall i | 0 <= i < |row[1..]| ensures row[1..][i].name !in labels {
          assert row[1..][i] == row[i + 1];
        }
        DropUnchangedIff(row[1..], labels);
        assert [row[0]] + row[1..] == row;
      }
    } else {
      var i :| 0 <= i < |row| && row[i].name in labels;
      assert row[i] in row;
      assert row[i] !in Drop(row, labels);
    }
  }

  /** Only the set of labels matters: their order and repetitions do not. */
  lemma {:induction false} DropLabelSet<V>(row: Row<V>, labels1: seq<string>, labels2: seq<string>)
    requires forall n :: n in labels1 <==> n in labels2
    ensures Drop(row, labels1) == Drop(row, labels2)
  {
    if row != [] {
      DropLabelSet(row[1..], labels1, labels2);
    }
  }

  /** Two drops in a row are one drop of both label lists. */
  lemma {:induction false} DropTwice<V>(row: Row<V>, labels1: seq<string>, labels2: seq<string>)
    ensures Drop(Drop(row, labels1), labels2) == Drop(row, labels1 + labels2)
  {
    if row != [] {
      DropTwice(row[1..], labels1, labels2);
      if row[0].name !in labels1 {
        var rest := Drop(row[1..], labels1);
        assert ([row[0]] + rest)[0] == row[0];
        assert ([row[0]] + rest)[1..] == rest;
      }
    }
  }

  /** A drop keeps labels unique. */
  lemma {:induction false} DropUniqueNames<V>(row: Row<V>, labels: seq<string>)
    requires UniqueNames(row)
    ensures UniqueNames(Drop(row, labels))
  {
    if row != [] {
      assert UniqueNames(row[1..]) by {
        forall i, j | 0 <= i < j < |row[1..]| ensures row[1..][i].name != row[1..][j].name {
          assert row[1..][i] == row[i + 1] && row[1..][j] == row[j + 1];
        }
      }
      DropUniqueNames(row[1..], labels);
      if row[0].name !in labels {
        var rest := Drop(row[1..], labels);
        forall j | 0 <= j < |rest| ensures row[0].name != rest[j].name {
          assert rest[j] in rest;
          var k :| 0 <= k < |row[1..]| && row[1..][k] == rest[j];
          assert row[k + 1] == rest[j];
        }
        forall i, j | 0 <= i < j < |[row[0]] + rest|
          ensures ([row[0]] + rest)[i].name != ([row[0]] + rest)[j].name
        {
          if i > 0 {
            assert ([row[0]] + rest)[i] == rest[i - 1];
          }
          assert ([row[0]] + rest)[j] == rest[j - 1];
        }
      }
    }
  }

  /** `s` is `t` with some elements left out and the rest in their order. */
  ghost predicate Subsequence<T>(s: seq<T>, t: seq<T>)
    decreases |t|
  {
    s == [] || (t != [] && ((s[0] == t[0] && Subsequence(s[1..], t[1..])) || Subsequence(s, t[1..])))
  }

  /** Every element of a subsequence is an element of the sequence. */
  lemma {:induction false} SubsequenceElements<T>(s: seq<T>, t: seq<T>)
    requires Subsequence(s, t)
    ensures forall x :: x in s ==> x in t
    decreases |t|
  {
    if s != [] {
      if s[0] == t[0] && Subsequence(s[1..], t[1..]) {
        SubsequenceElements(s[1..], t[1..]);
        forall x | x in s ensures x in t {
          if x != s[0] {
            assert x in s[1..];
          }
        }
      } else {
        SubsequenceElements(s, t[1..]);
      }
    }
  }

  /** The fields a drop keeps stay in their original column order. */
  lemma {:induction false} DropSubsequence<V>(row: Row<V>, labels: seq<string>)
    ensures Subsequence(Drop(row, labels), row)
  {
    if row != [] {
      DropSubsequence(row[1..], labels);
      if row[0].name !in labels {
        var rest := Drop(row[1..], labels);
        assert ([row[0]] + rest)[0] == row[0];
        assert ([row[0]] + rest)[1..] == rest;
      }
    }
  }

  /**
   * An independent description of the drop, and its uniqueness: on a row
   * with unique labels, any sequence that keeps the row's order (a
   * subsequence) and holds exactly the fields whose labels are not dropped
   * IS the drop. So the drop adds nothing, loses nothing else, and reorders
   * nothing.
   */
  lemma {:induction false} DropCharacterized<V>(row: Row<V>, labels: seq<string>, s: Row<V>)
    requires UniqueNames(row)
    requires Subsequence(s, row)
    requires forall f :: f in s <==> f in row && f.name !in labels
    ensures s == Drop(row, labels)
    decreases |row|
  {
    if s == [] {
      if Drop(row, labels) != [] {
        assert Drop(row, labels)[0] in Drop(row, labels);
        assert false;
      }
    } else {
      var p, rest := row[0], row[1..];
      assert row == [p] + rest;
      assert UniqueNames(rest) by {
        forall i, j | 0 <= i < j < |rest| ensures rest[i].name != rest[j].name {
          assert rest[i] == row[i + 1] && rest[j] == row[j + 1];
        }
      }
      assert p !in rest by {
        forall k | 0 <= k < |rest| ensures rest[k] != p {
          assert rest[k] == row[k + 1];
        }
      }
      if p.name in labels {
        assert s[0] != p by { assert s[0] in s; }
        assert Subsequence(s, rest);
        forall f ensures f in s <==> f in rest && f.name !in labels {
          if f in s { assert f != p; }
        }
        DropCharacterized(rest, labels, s);
      } else {
        assert p in s;
        if s[0] == p && Subsequence(s[1..], rest) {
          SubsequenceElements(s[1..], rest);
          forall f ensures f in s[1..] <==> f in rest && f.name !in labels {
            if f in s[1..] {
              assert f in s;
            }
            if f in rest && f.name !in labels {
              assert f in s;
              assert f != s[0];
              assert s == [s[0]] + s[1..];
            }
          }
          DropCharacterized(rest, labels, s[1..]);
          assert s == [s[0]] + s[1..];
        } else {
          assert Subsequence(s, rest);
          SubsequenceElements(s, rest);
          assert false;
        }
      }
    }
  }
}
