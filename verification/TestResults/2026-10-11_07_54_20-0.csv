TestResult.DisplayName,TestResult.Outcome,TestResult.Duration,TestResult.ResourceCount,RandomSeed
Murmur3.RotlInverse (correctness),Passed,00:00:00.1678952,1037281,2
Murmur3.Rotl (well-formedness),Passed,00:00:00.1517057,361735,2
Murmur3.RotlInverse (well-formedness),Passed,00:00:00.1070231,9313,2
