/**
 * The scan's `type_counts`: a `defaultdict(int)` from normalised extension
 * to number of files. Python dicts remember insertion order, which later
 * decides how equal counts are listed, so it is an association list whose
 * keys are distinct and appear in the order they were first counted.
 */
module ExtHistogram {

  datatype TypeCount = TypeCount(ext: string, count: nat)

  type Histogram = seq<TypeCount>

  ghost predicate DistinctKeys(h: Histogram)
  {
    forall i, j :: 0 <= i < j < |h| ==> h[i].ext != h[j].ext
  }

  /** Every stored count is at least one, as when keys are only created by `+= 1`. */
  predicate Positive(h: Histogram)
  {
    forall i :: 0 <= i < |h| ==> h[i].count > 0
  }

  /** `h[ext]` on a defaultdict: the count stored for `ext`, 0 when absent. */
  function CountOf(h: Histogram, ext: string): nat
  {
    if h == [] then 0
    else if h[0].ext == ext then h[0].count
    else CountOf(h[1..], ext)
  }

  /** `sum(h.values())`. */
  function Total(h: Histogram): nat
  {
    if h == [] then 0 else h[0].count + Total(h[1..])
  }

  /** `h[ext] += 1`: the count of `ext` goes up by one and no other count changes. */
  function Bump(h: Histogram, ext: string): (r: Histogram)
    ensures CountOf(r, ext) == CountOf(h, ext) + 1
    ensures forall e :: e != ext ==> CountOf(r, e) == CountOf(h, e)
    ensures Total(r) == Total(h) + 1
  {
    if h == [] then [TypeCount(ext, 1)]
    else if h[0].ext == ext then [TypeCount(ext, h[0].count + 1)] + h[1..]
    else [h[0]] + Bump(h[1..], ext)
  }

  /**
   * Existing keys keep their places, a new key can only go at the end, and
   * counts stay positive.
   */
  lemma {:induction false} BumpShape(h: Histogram, ext: string)
    ensures |h| <= |Bump(h, ext)| <= |h| + 1
    ensures forall i :: 0 <= i < |Bump(h, ext)| ==> Bump(h, ext)[i].ext == (if i < |h| then h[i].ext else ext)
    ensures Positive(h) ==> Positive(Bump(h, ext))
  {
    if h != [] && h[0].ext != ext {
      var t := Bump(h[1..], ext);
      BumpShape(h[1..], ext);
      var r := [h[0]] + t;
      assert Bump(h, ext) == r;
      forall i | 0 <= i < |r| ensures r[i].ext == (if i < |h| then h[i].ext else ext) {
        if i > 0 {
          assert r[i] == t[i - 1];
        }
      }
      if Positive(h) {
        assert Positive(h[1..]) by {
          forall i | 0 <= i < |h[1..]| ensures h[1..][i].count > 0 {
            assert h[1..][i] == h[i + 1];
          }
        }
        forall i | 0 <= i < |r| ensures r[i].count > 0 {
          if i > 0 {
            assert r[i] == t[i - 1];
          }
        }
      }
    } else if h != [] {
      var r := Bump(h, ext);
      assert |r| == |h|;
      forall i | 0 <= i < |r| ensures r[i].ext == h[i].ext {
        if i > 0 {
          assert r[i] == h[i];
        }
      }
      if Positive(h) {
        forall i | 0 <= i < |r| ensures r[i].count > 0 {
          if i > 0 {
            assert r[i] == h[i];
          }
        }
      }
    }
  }

  /** `ext not in h`. */
  predicate Absent(h: Histogram, ext: string)
  {
    forall i :: 0 <= i < |h| ==> h[i].ext != ext
  }

  /** A key seen before keeps the length; a new key goes to the end with count 1. */
  lemma {:induction false} BumpAppends(h: Histogram, ext: string)
    ensures Absent(h, ext) <==> |Bump(h, ext)| == |h| + 1
    ensures Absent(h, ext) ==> Bump(h, ext) == h + [TypeCount(ext, 1)]
  {
    BumpShape(h, ext);
    if h != [] && h[0].ext != ext {
      var t := h[1..];
      BumpAppends(t, ext);
      assert h == [h[0]] + t;
      assert Absent(h, ext) <==> Absent(t, ext) by {
        if Absent(t, ext) {
          forall i | 0 <= i < |h| ensures h[i].ext != ext {
            if i > 0 {
              assert h[i] == t[i - 1];
            }
          }
        }
        if Absent(h, ext) {
          forall i | 0 <= i < |t| ensures t[i].ext != ext {
            assert t[i] == h[i + 1];
          }
        }
      }
      if Absent(h, ext) {
        assert Bump(h, ext) == [h[0]] + (t + [TypeCount(ext, 1)]);
        assert [h[0]] + (t + [TypeCount(ext, 1)]) == h + [TypeCount(ext, 1)];
      }
    } else if h != [] {
      assert !Absent(h, ext);
    }
  }

  /** Counting a file keeps the keys distinct. */
  lemma BumpDistinct(h: Histogram, ext: string)
    requires DistinctKeys(h)
    ensures DistinctKeys(Bump(h, ext))
  {
    var r := Bump(h, ext);
    BumpShape(h, ext);
    BumpAppends(h, ext);
    forall i, j | 0 <= i < j < |r| ensures r[i].ext != r[j].ext {
      if j == |h| {
        assert r[j].ext == ext && r[i].ext == h[i].ext;
      } else {
        assert r[i].ext == h[i].ext && r[j].ext == h[j].ext;
      }
    }
  }

  /** With positive counts, the dict is empty exactly when the counts add up to nothing. */
  lemma PositiveTotal(h: Histogram)
    requires Positive(h)
    ensures Total(h) == 0 <==> h == []
  {
    if h != [] {
      assert h[0].count > 0;
    }
  }
}
