/** The whitelist `SUPPORTED_FILETYPES` and the normalisation `file` applies to the
    extension it is given before looking it up. */
module Filetypes {
  import opened Text

  /** Accepted token (extension or content-type) to canonical extension. */
  const Supported: map<string, string> := map[
    ".jpg" := ".jpg",
    ".jpeg" := ".jpg",
    "image/jpeg" := ".jpg",
    ".png" := ".png",
    "image/png" := ".png",
    ".gif" := ".gif",
    "image/gif" := ".gif"
  ]

  const Canonical: set<string> := {".jpg", ".png", ".gif"}

  /** The extensions `file` accepts once normalised. */
  const DottedKeys: set<string> := {".jpg", ".jpeg", ".png", ".gif"}

  predicate StartsWithDot(s: string) { |s| > 0 && s[0] == '.' }

  /** `prepend('.') unless start_with? '.'`, then `downcase!`. */
  function Normalise(ext: string): (r: string)
    ensures StartsWithDot(r)
    ensures |r| == if StartsWithDot(ext) then |ext| else |ext| + 1
  {
    Lower(if StartsWithDot(ext) then ext else "." + ext)
  }

  /** Whether `file` accepts the extension (it raises FiletypeError otherwise). */
  predicate Accepts(ext: string)
  {
    Normalise(ext) in Supported
  }

  /** Every token maps to a canonical extension, and a canonical extension maps to itself. */
  lemma CanonicalIsFixed()
    ensures forall k :: k in Supported ==> Supported[k] in Canonical && Supported[k] in Supported
    ensures forall k :: k in Supported ==> Supported[Supported[k]] == Supported[k]
    ensures forall c :: c in Canonical ==> c in Supported && Supported[c] == c
  {
  }

  /** Normalising is idempotent. */
  lemma NormaliseIdempotent(ext: string)
    ensures Normalise(Normalise(ext)) == Normalise(ext)
  {
    LowerIdempotent(if StartsWithDot(ext) then ext else "." + ext);
  }

  /** `file` accepts exactly the four dotted extension keys, with or without the dot, in any
      letter case: a content-type such as "image/jpeg" is rejected, because the dot is
      prepended before the lookup. */
  lemma {:induction false} AcceptsExactly(ext: string)
    ensures Accepts(ext) <==> Lower(ext) in DottedKeys || "." + Lower(ext) in DottedKeys
  {
    var lo := Lower(ext);
    assert StartsWithDot(lo) <==> StartsWithDot(ext);
    if StartsWithDot(ext) {
      assert Normalise(ext) == lo;
      assert ("." + lo)[1] == '.';
      assert forall k :: k in DottedKeys ==> |k| > 1 && k[1] != '.';
    } else {
      assert Lower("." + ext) == "." + lo;
      assert lo !in DottedKeys;
    }
  }

  /** The three content-type keys are accepted by download's lookup but not by `file`. */
  lemma ContentTypesRejectedByFile()
    ensures "image/jpeg" in Supported && !Accepts("image/jpeg")
    ensures "image/png" in Supported && !Accepts("image/png")
    ensures "image/gif" in Supported && !Accepts("image/gif")
  {
    assert forall k :: k in Supported ==> |k| <= 10;
    assert |Normalise("image/jpeg")| == 11;
    assert |Normalise("image/png")| == 10 && Normalise("image/png")[1] == 'i';
    assert |Normalise("image/gif")| == 10 && Normalise("image/gif")[1] == 'i';
  }
}
