TestResult.DisplayName,TestResult.Outcome,TestResult.Duration,TestResult.ResourceCount,RandomSeed
Murmur3.Rotl (well-formedness),Passed,00:00:00.1532986,361735,3
Murmur3.RotlInverse (correctness),Passed,00:00:00.1335849,1037093,3
Murmur3.RotlInverse (well-formedness),Passed,00:00:00.0748271,9306,3
