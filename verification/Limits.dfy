/** The limits of easyhook.h. */
module Limits {
  const MAX_HOOK_COUNT: nat := 1024
  const MAX_ACE_COUNT: nat := 128
  const MAX_THREAD_COUNT: nat := 128
}
