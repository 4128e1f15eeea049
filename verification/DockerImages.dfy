/** Which base images and which lines the normaliser takes for what, letter by letter. */
module DockerImages {
  import opened TextLines
  import opened DockerFrom
  import opened DockerFromLaws

  // ----- Known-good images -----

  /** `f` is `c`, or the small letter of the capital `c`. The Kelvin sign is a capital k. */
  predicate IsLetter(c: char, f: char) {
    if 'A' <= c <= 'Z' then c as int + 32 == f as int else if c == '\U{212A}' then f == 'k' else c == f
  }

  /** The image begins with the family name, in capitals or small letters. */
  predicate Begins(image: string, family: string) {
    |family| <= |image| && forall i :: 0 <= i < |family| ==> IsLetter(image[i], family[i])
  }

  predicate IsOfKnownFamily(image: string) {
    Begins(image, "runpod/pytorch") || Begins(image, "pytorch/pytorch") || Begins(image, "nvidia/cuda")
    || Begins(image, "nvcr.io/nvidia") || Begins(image, "python:") || Begins(image, "python ")
    || Begins(image, "ubuntu:") || Begins(image, "ubuntu ") || Begins(image, "debian:") || Begins(image, "debian ")
    || Begins(image, "tensorflow/tensorflow") || Begins(image, "rocm/pytorch") || Begins(image, "continuumio/")
    || Begins(image, "mambaorg/") || Begins(image, "quay.io/") || Begins(image, "gcr.io/")
    || Begins(image, "us-central1-docker.pkg.dev/") || Begins(image, "europe-west4-docker.pkg.dev/")
    || Begins(image, "scratch") || Begins(image, "busybox") || Begins(image, "alpine")
  }

  lemma LowerIs(c: char, f: char)
    ensures LowerChar(c) == f <==> IsLetter(c, f)
  {
  }

  lemma BeginsIff(image: string, family: string)
    ensures StartsWith(Lower(image), family) <==> Begins(image, family)
  {
    hide LowerChar, IsLetter;
    forall i | 0 <= i < |family| && i < |image|
      ensures Lower(image)[i] == family[i] <==> IsLetter(image[i], family[i])
    {
      LowerIs(image[i], family[i]);
    }
    if StartsWith(Lower(image), family) {
      assert forall i :: 0 <= i < |family| ==> family[i] == Lower(image)[i];
    }
  }

  lemma FamilyIff(image: string)
    ensures IsOfKnownFamily(image) <==> exists k :: 0 <= k < |FAMILIES| && Begins(image, FAMILIES[k])
  {
    hide Begins;
    if IsOfKnownFamily(image) {
      assert Begins(image, FAMILIES[0]) || Begins(image, FAMILIES[1]) || Begins(image, FAMILIES[2])
        || Begins(image, FAMILIES[3]) || Begins(image, FAMILIES[4]) || Begins(image, FAMILIES[5])
        || Begins(image, FAMILIES[6]) || Begins(image, FAMILIES[7]) || Begins(image, FAMILIES[8])
        || Begins(image, FAMILIES[9]) || Begins(image, FAMILIES[10]) || Begins(image, FAMILIES[11])
        || Begins(image, FAMILIES[12]) || Begins(image, FAMILIES[13]) || Begins(image, FAMILIES[14])
        || Begins(image, FAMILIES[15]) || Begins(image, FAMILIES[16]) || Begins(image, FAMILIES[17])
        || Begins(image, FAMILIES[18]) || Begins(image, FAMILIES[19]) || Begins(image, FAMILIES[20]);
    }
  }

  /** An image is known to be good if and only if it is a variable or begins with one of these names. */
  lemma KnownGoodIff(image: string)
    ensures IsKnownGood(image) <==> image != "" && (image[0] == '$' || IsOfKnownFamily(image))
  {
    hide Lower, Begins, IsOfKnownFamily, StartsWith, FAMILIES;
    FamilyIff(image);
    forall family
      ensures StartsWith(Lower(image), family) <==> Begins(image, family)
    {
      BeginsIff(image, family);
    }
  }

  /** The list of families has entries with a blank behind the name, to let an image without a tag pass; a
      word has no blank, so that no such image passes. */
  lemma UntaggedIsUnknown(image: string)
    requires |image| == 6 && (Begins(image, "python") || Begins(image, "ubuntu") || Begins(image, "debian"))
    ensures !IsKnownGood(image)
  {
    KnownGoodIff(image);
    assert image[0] != 'a' && image[0] != 'A' && image[0] != '$';
  }

  /** `FROM python AS build` does not come back as it was. */
  lemma UntaggedIsReplaced(d: string, i: nat)
    requires i < |SplitLines(d)| && FromAt(SplitLines(d), i) && |Words(Strip(SplitLines(d)[i]))| >= 2
    requires var image := Words(Strip(SplitLines(d)[i]))[1];
      |image| == 6 && (Begins(image, "python") || Begins(image, "ubuntu") || Begins(image, "debian"))
    ensures Normalized(d) != d
  {
    hide *;
    SwapAtFrom(SplitLines(d), i);
    UntaggedIsUnknown(Words(Strip(SplitLines(d)[i]))[1]);
    ImageOf(d);
    UnchangedIff(d);
  }

  // ----- Kinds of lines -----

  /** The text begins with the word, which is in capitals, in capitals or small letters. */
  predicate Spells(text: string, word: string) {
    |word| <= |text| && forall i :: 0 <= i < |word| ==> IsCapital(text[i], word[i])
  }

  /** `u` is `c`, or the capital of the small letter `c`. */
  predicate IsCapital(c: char, u: char) {
    if 'a' <= c <= 'z' then c as int - 32 == u as int else c == u
  }

  lemma UpperIs(c: char, u: char)
    ensures UpperChar(c) == u <==> IsCapital(c, u)
  {
  }

  lemma SpellsIff(text: string, word: string)
    ensures StartsWith(Upper(text), word) <==> Spells(text, word)
  {
    hide UpperChar, IsCapital;
    forall i | 0 <= i < |word| && i < |text|
      ensures Upper(text)[i] == word[i] <==> IsCapital(text[i], word[i])
    {
      UpperIs(text[i], word[i]);
    }
    if StartsWith(Upper(text), word) {
      assert forall i :: 0 <= i < |word| ==> word[i] == Upper(text)[i];
    }
  }

  /** By what is left of a line without the spaces around it: blank lines, comments and `ARG` are passed
      over in search of the first instruction; it is a `FROM` when that word and a blank come first. */
  lemma LineKinds(line: string)
    ensures IsSkipped(line) <==> Strip(line) == "" || Strip(line)[0] == '#' || Spells(Strip(line), "ARG")
    ensures IsFrom(line) <==> Spells(Strip(line), "FROM ")
    ensures MentionsFrom(line) <==> Spells(Strip(line), "FROM")
  {
    hide Strip, Upper, Spells;
    SpellsIff(Strip(line), "ARG");
    SpellsIff(Strip(line), "FROM ");
    SpellsIff(Strip(line), "FROM");
  }
}
