TestResult.DisplayName,TestResult.Outcome,TestResult.Duration,TestResult.ResourceCount,RandomSeed
Murmur3.RotlInverse (correctness),Passed,00:00:00.1224544,1037281,0
Murmur3.Rotl (well-formedness),Passed,00:00:00.1187067,371949,0
Murmur3.RotlInverse (well-formedness),Passed,00:00:00.0840746,10816,0
