TestResult.DisplayName,TestResult.Outcome,TestResult.Duration,TestResult.ResourceCount,RandomSeed
Murmur3.RotlInverse (correctness),Passed,00:00:00.1231940,1037281,1
Murmur3.Rotl (well-formedness),Passed,00:00:00.1218735,361739,1
Murmur3.RotlInverse (well-formedness),Passed,00:00:00.0799878,9313,1
