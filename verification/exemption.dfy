/** The exemption rule of logic/grading.ts: a Christian student is exempt from
    an Islamic-studies subject, recognised by keywords in the subject's name. */
module Exemption {
  import opened Util
  import opened Text
  import opened Types

  const IslamicKeywords: seq<string> := ["إسلامية", "الدين الإسلامي", "التربية الإسلامية", "القرآن"]

  /** `isIslamicSubject(name)`: some keyword occurs in the name. */
  predicate IsIslamicSubject(name: string)
  {
    exists k :: 0 <= k < |IslamicKeywords| && Contains(name, IslamicKeywords[k])
  }

  /** `student.religion === 'christian' && isIslamicSubject(sub.name)`. */
  predicate IsExempt(student: Student, subject: Subject)
  {
    student.religion == Some(Christian) && IsIslamicSubject(subject.name)
  }

  /** A subject is Islamic exactly when one of the keywords occurs in its name
      at some position. */
  lemma IslamicIffKeywordOccurs(name: string)
    ensures IsIslamicSubject(name) <==>
              exists k, i :: 0 <= k < |IslamicKeywords| && OccursAt(name, IslamicKeywords[k], i)
  {
    forall k | 0 <= k < |IslamicKeywords|
      ensures Contains(name, IslamicKeywords[k]) <==> exists i :: OccursAt(name, IslamicKeywords[k], i)
    {
      ContainsIffOccurs(name, IslamicKeywords[k]);
    }
  }

  /** The third keyword ("التربية الإسلامية") contains the first ("إسلامية"),
      so it never changes the verdict: three keywords decide it. */
  lemma ThirdKeywordIsRedundant(name: string)
    ensures IsIslamicSubject(name) <==>
              Contains(name, IslamicKeywords[0]) || Contains(name, IslamicKeywords[1]) || Contains(name, IslamicKeywords[3])
  {
    var third := IslamicKeywords[2];
    var first := IslamicKeywords[0];
    assert third[10..10 + |first|] == first;
    OccurrenceIsContained(third, first, 10);
    if Contains(name, third) {
      ContainsTransitive(name, third, first);
    }
  }
}
