/** The canonical question bank the seeding loop walks, subject by subject in the source's dict order. */
module Catalog {
  import opened Records
  import opened Seeding

  const MATHEMATICS_QUESTIONS: seq<string> := [
    "Derive the quadratic formula and explain its components",
    "Solve a system of linear equations using matrices",
    "Explain the concept of differentiation and its applications",
    "Prove the Pythagorean theorem",
    "Solve problems involving trigonometric functions",
    "Explain the concept of integration and its real-world applications",
    "Solve problems involving complex numbers",
    "Explain the binomial theorem and its applications"
  ]

  const PHYSICS_QUESTIONS: seq<string> := [
    "Explain Newton's laws of motion with practical examples",
    "Describe the principles of electromagnetic induction",
    "Explain the concept of wave-particle duality",
    "Describe the working principle of a nuclear reactor",
    "Explain the laws of thermodynamics",
    "Describe the principles of quantum mechanics",
    "Explain the concept of gravitational fields",
    "Describe the physics behind semiconductors"
  ]

  const CHEMISTRY_QUESTIONS: seq<string> := [
    "Explain the periodic trends in atomic properties",
    "Describe the mechanism of organic reactions",
    "Explain the concept of chemical equilibrium",
    "Describe the properties of transition elements",
    "Explain the principles of electrochemistry",
    "Describe the structure and properties of polymers",
    "Explain the concepts of acid-base equilibria",
    "Describe the principles of chemical kinetics"
  ]

  const BIOLOGY_QUESTIONS: seq<string> := [
    "Explain the process of photosynthesis in detail",
    "Describe the structure and function of DNA",
    "Explain the process of cellular respiration",
    "Describe the human digestive system",
    "Explain the principles of genetic inheritance",
    "Describe the process of protein synthesis",
    "Explain the immune system's response to infection",
    "Describe the process of evolution and natural selection"
  ]

  const SUBJECT_QUESTIONS: seq<Bank> := [
    Bank(Mathematics, MATHEMATICS_QUESTIONS),
    Bank(Physics, PHYSICS_QUESTIONS),
    Bank(Chemistry, CHEMISTRY_QUESTIONS),
    Bank(Biology, BIOLOGY_QUESTIONS)
  ]

  /** Four banks of eight questions each: 32 canonical questions. */
  lemma CatalogSize()
    ensures |SUBJECT_QUESTIONS| == 4
    ensures QuestionCount(SUBJECT_QUESTIONS, |SUBJECT_QUESTIONS|) == 32
  {
    assert |MATHEMATICS_QUESTIONS| == |PHYSICS_QUESTIONS| == 8;
    assert |CHEMISTRY_QUESTIONS| == |BIOLOGY_QUESTIONS| == 8;
    assert SUBJECT_QUESTIONS[0].questions == MATHEMATICS_QUESTIONS;
    assert QuestionCount(SUBJECT_QUESTIONS, 1) == 8;
    assert QuestionCount(SUBJECT_QUESTIONS, 2) == 16;
    assert QuestionCount(SUBJECT_QUESTIONS, 3) == 24;
  }

  /** The Mathematics bank lists no question twice. */
  lemma MathematicsDistinct()
    ensures forall a, b | 0 <= a < b < |MATHEMATICS_QUESTIONS| :: MATHEMATICS_QUESTIONS[a] != MATHEMATICS_QUESTIONS[b]
  {
  }

  /** The Physics bank lists no question twice. */
  lemma PhysicsDistinct()
    ensures forall a, b | 0 <= a < b < |PHYSICS_QUESTIONS| :: PHYSICS_QUESTIONS[a] != PHYSICS_QUESTIONS[b]
  {
  }

  /** The Chemistry bank lists no question twice. */
  lemma ChemistryDistinct()
    ensures forall a, b | 0 <= a < b < |CHEMISTRY_QUESTIONS| :: CHEMISTRY_QUESTIONS[a] != CHEMISTRY_QUESTIONS[b]
  {
  }

  /** The Biology bank lists no question twice. */
  lemma BiologyDistinct()
    ensures forall a, b | 0 <= a < b < |BIOLOGY_QUESTIONS| :: BIOLOGY_QUESTIONS[a] != BIOLOGY_QUESTIONS[b]
  {
  }

  /** No subject has two banks and no bank lists a question twice. */
  lemma CatalogDistinct()
    ensures DistinctCatalog(SUBJECT_QUESTIONS)
  {
    MathematicsDistinct();
    PhysicsDistinct();
    ChemistryDistinct();
    BiologyDistinct();
  }

  /**
    In the app's own catalog every canonical question occurs in the seeded
    table once per variant drawn for it: two or three times.
  */
  lemma AppQuestionYield(draws: seq<seq<seq<Variant>>>, t: nat, m: nat)
    requires DrawsFit(SUBJECT_QUESTIONS, draws)
    requires t < |SUBJECT_QUESTIONS| && m < |SUBJECT_QUESTIONS[t].questions|
    ensures Occurrences(SeedRows(SUBJECT_QUESTIONS, draws), SUBJECT_QUESTIONS[t].subject, SUBJECT_QUESTIONS[t].questions[m])
      == |draws[t][m]|
    ensures 2 <= Occurrences(SeedRows(SUBJECT_QUESTIONS, draws), SUBJECT_QUESTIONS[t].subject, SUBJECT_QUESTIONS[t].questions[m]) <= 3
  {
    CatalogDistinct();
    QuestionYield(SUBJECT_QUESTIONS, draws, t, m);
  }
}
