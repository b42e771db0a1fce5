/** The symbol table as it ships, and that all but two of its rows are in order. */
module ShippedRows {
  import opened SymbolLookup

  type Table = t: seq<CStr> | |t| == 117 witness seq(117, _ => "")

  ghost predicate FirstRows(t: Table) {
    && t[0] == "__ctype_b_loc" && t[1] == "__ctype_tolower_loc" && t[2] == "__cxa_atexit"
    && t[3] == "__errno_location" && t[4] == "__fprintf_chk" && t[5] == "__fxstat" && t[6] == "__fxstat64"
    && t[7] == "__gmon_start__" && t[8] == "__libc_start_main" && t[9] == "__memcpy_chk"
    && t[10] == "__printf_chk" && t[11] == "__res_search" && t[12] == "__snprintf_chk"
    && t[13] == "__sprintf_chk" && t[14] == "__strcpy_chk" && t[15] == "__vfprintf_chk"
    && t[16] == "__vprintf_chk" && t[17] == "__vsnprintf_chk" && t[18] == "__xstat64" && t[19] == "accept"
    && t[20] == "bind" && t[21] == "chmod" && t[22] == "close" && t[23] == "connect" && t[24] == "daemon"
    && t[25] == "epoll_create" && t[26] == "epoll_ctl" && t[27] == "epoll_wait" && t[28] == "exit"
    && t[29] == "fclose" && t[30] == "fcntl" && t[31] == "fflush" && t[32] == "fileno" && t[33] == "flock"
    && t[34] == "fopen64" && t[35] == "fread" && t[36] == "free" && t[37] == "freeaddrinfo" && t[38] == "fsync"
    && t[39] == "fwrite" && t[40] == "getaddrinfo" && t[41] == "getenv" && t[42] == "gethostname"
    && t[43] == "getopt" && t[44] == "getpid" && t[45] == "getpeername" && t[46] == "getsockname"
    && t[47] == "getsockopt" && t[48] == "gettimeofday" && t[49] == "getuid" && t[50] == "htonl"
    && t[51] == "htons" && t[52] == "inet_addr" && t[53] == "inet_ntop" && t[54] == "ioctl"
    && t[55] == "isspace" && t[56] == "listen" && t[57] == "localtime" && t[58] == "malloc"
  }

  ghost predicate LastRows(t: Table) {
    && t[58] == "malloc" && t[59] == "memchr" && t[60] == "memcmp" && t[61] == "memcpy" && t[62] == "memmove"
    && t[63] == "memset" && t[64] == "mkdir" && t[65] == "ns_initparse" && t[66] == "ns_msg_getflag"
    && t[67] == "ns_parserr" && t[68] == "open" && t[69] == "open64" && t[70] == "opendir" && t[71] == "optarg"
    && t[72] == "opterr" && t[73] == "optind" && t[74] == "optopt" && t[75] == "pipe" && t[76] == "poll"
    && t[77] == "pthread_create" && t[78] == "pthread_exit" && t[79] == "pthread_mutex_init"
    && t[80] == "pthread_mutex_lock" && t[81] == "puts" && t[82] == "qsort" && t[83] == "rand"
    && t[84] == "read" && t[85] == "realloc" && t[86] == "recv" && t[87] == "recvfrom" && t[88] == "send"
    && t[89] == "sendto" && t[90] == "setsockopt" && t[91] == "sigaction" && t[92] == "sigemptyset"
    && t[93] == "signal" && t[94] == "snprintf" && t[95] == "socket" && t[96] == "sscanf" && t[97] == "stdout"
    && t[98] == "strchr" && t[99] == "strcmp" && t[100] == "strcpy" && t[101] == "strdup"
    && t[102] == "strerror" && t[103] == "strlen" && t[104] == "strncasecmp" && t[105] == "strncmp"
    && t[106] == "strncpy" && t[107] == "strrchr" && t[108] == "strstr" && t[109] == "strtol"
    && t[110] == "system" && t[111] == "time" && t[112] == "tolower" && t[113] == "uname" && t[114] == "unlink"
    && t[115] == "usleep" && t[116] == "write"
  }

  ghost predicate Shipped(t: Table) {
    FirstRows(t) && LastRows(t)
  }

  /** a and b have the same first k characters. */
  predicate Agree(a: CStr, b: CStr, k: nat)
    requires k <= |a| && k <= |b|
    decreases k
  {
    k == 0 || (a[k - 1] == b[k - 1] && Agree(a, b, k - 1))
  }

  lemma {:induction false} AgreeIs(a: CStr, b: CStr, k: nat)
    requires k <= |a| && k <= |b| && Agree(a, b, k)
    ensures a[..k] == b[..k]
  {
    if k > 0 {
      AgreeIs(a, b, k - 1);
      assert a[..k] == a[..k - 1] + [a[k - 1]] && b[..k] == b[..k - 1] + [b[k - 1]];
    }
  }

  /** Row i and the next one agree up to column k, and there row i is below. */
  predicate BelowAt(t: Table, i: nat, k: nat)
    requires i + 1 < |t|
  {
    k <= |t[i]| && k <= |t[i + 1]| && Agree(t[i], t[i + 1], k) && At(t[i], k) < At(t[i + 1], k)
  }

  ghost predicate Rises(t: Table, i: nat)
    requires i + 1 < |t|
  {
    exists k: nat :: BelowAt(t, i, k)
  }

  lemma RisesIsLess(t: Table, i: nat)
    requires i + 1 < |t| && Rises(t, i)
    ensures Less(t[i], t[i + 1])
  {
    var k: nat :| BelowAt(t, i, k);
    AgreeIs(t[i], t[i + 1], k);
    assert LessAt(t[i], t[i + 1], k);
  }

  lemma PthreadRows(t: Table)
    requires t[77] == "pthread_create" && t[78] == "pthread_exit" && t[79] == "pthread_mutex_init"
    requires t[80] == "pthread_mutex_lock"
    ensures BelowAt(t, 77, 8) && BelowAt(t, 78, 8) && BelowAt(t, 79, 14)
  {
  }

  lemma RiseFrom0(t: Table)
    requires FirstRows(t)
    ensures forall i :: 0 <= i < 12 ==> Rises(t, i)
  {
    assert BelowAt(t, 0, 8) && BelowAt(t, 1, 3) && BelowAt(t, 2, 2) && BelowAt(t, 3, 2) && BelowAt(t, 4, 3);
    assert BelowAt(t, 5, 8) && BelowAt(t, 6, 2) && BelowAt(t, 7, 2) && BelowAt(t, 8, 2) && BelowAt(t, 9, 2);
    assert BelowAt(t, 10, 2) && BelowAt(t, 11, 2);
  }

  lemma RiseFrom12(t: Table)
    requires FirstRows(t)
    ensures forall i :: 12 <= i < 24 ==> Rises(t, i)
  {
    assert BelowAt(t, 12, 3) && BelowAt(t, 13, 3) && BelowAt(t, 14, 2) && BelowAt(t, 15, 3);
    assert BelowAt(t, 16, 3) && BelowAt(t, 17, 2) && BelowAt(t, 18, 0) && BelowAt(t, 19, 0);
    assert BelowAt(t, 20, 0) && BelowAt(t, 21, 1) && BelowAt(t, 22, 1) && BelowAt(t, 23, 0);
  }

  lemma RiseFrom24(t: Table)
    requires FirstRows(t)
    ensures forall i :: 24 <= i < 36 ==> Rises(t, i)
  {
    assert BelowAt(t, 24, 0) && BelowAt(t, 25, 7) && BelowAt(t, 26, 6) && BelowAt(t, 27, 1);
    assert BelowAt(t, 28, 0) && BelowAt(t, 29, 2) && BelowAt(t, 30, 1) && BelowAt(t, 31, 1);
    assert BelowAt(t, 32, 1) && BelowAt(t, 33, 1) && BelowAt(t, 34, 1) && BelowAt(t, 35, 3);
  }

  lemma RiseFrom36(t: Table)
    requires FirstRows(t)
    ensures forall i :: 36 <= i < 43 ==> Rises(t, i)
  {
    assert BelowAt(t, 36, 4) && BelowAt(t, 37, 1) && BelowAt(t, 38, 1) && BelowAt(t, 39, 0);
    assert BelowAt(t, 40, 3) && BelowAt(t, 41, 3) && BelowAt(t, 42, 3);
  }

  lemma RiseFrom46(t: Table)
    requires FirstRows(t)
    ensures forall i :: 46 <= i < 58 ==> Rises(t, i)
  {
    assert BelowAt(t, 46, 7) && BelowAt(t, 47, 3) && BelowAt(t, 48, 3) && BelowAt(t, 49, 0);
    assert BelowAt(t, 50, 4) && BelowAt(t, 51, 0) && BelowAt(t, 52, 5) && BelowAt(t, 53, 1);
    assert BelowAt(t, 54, 1) && BelowAt(t, 55, 0) && BelowAt(t, 56, 1) && BelowAt(t, 57, 0);
  }

  lemma RiseFrom58(t: Table)
    requires LastRows(t)
    ensures forall i :: 58 <= i < 70 ==> Rises(t, i)
  {
    assert BelowAt(t, 58, 1) && BelowAt(t, 59, 4) && BelowAt(t, 60, 4) && BelowAt(t, 61, 3);
    assert BelowAt(t, 62, 3) && BelowAt(t, 63, 1) && BelowAt(t, 64, 0) && BelowAt(t, 65, 3);
    assert BelowAt(t, 66, 3) && BelowAt(t, 67, 0) && BelowAt(t, 68, 4) && BelowAt(t, 69, 4);
  }

  lemma RiseFrom70(t: Table)
    requires LastRows(t)
    ensures forall i :: 70 <= i < 77 ==> Rises(t, i)
  {
    assert BelowAt(t, 70, 2) && BelowAt(t, 71, 3) && BelowAt(t, 72, 3) && BelowAt(t, 73, 3);
    assert BelowAt(t, 74, 0) && BelowAt(t, 75, 1) && BelowAt(t, 76, 1);
  }

  lemma RiseFrom77(t: Table)
    requires LastRows(t)
    ensures forall i :: 77 <= i < 80 ==> Rises(t, i)
  {
    PthreadRows(t);
  }

  lemma RiseFrom80(t: Table)
    requires LastRows(t)
    ensures forall i :: 80 <= i < 92 ==> Rises(t, i)
  {
    assert BelowAt(t, 80, 1) && BelowAt(t, 81, 0) && BelowAt(t, 82, 0) && BelowAt(t, 83, 1);
    assert BelowAt(t, 84, 3) && BelowAt(t, 85, 2) && BelowAt(t, 86, 4) && BelowAt(t, 87, 0);
    assert BelowAt(t, 88, 4) && BelowAt(t, 89, 2) && BelowAt(t, 90, 1) && BelowAt(t, 91, 3);
  }

  lemma RiseFrom92(t: Table)
    requires LastRows(t)
    ensures forall i :: 92 <= i < 104 ==> Rises(t, i)
  {
    assert BelowAt(t, 92, 3) && BelowAt(t, 93, 1) && BelowAt(t, 94, 1) && BelowAt(t, 95, 1);
    assert BelowAt(t, 96, 1) && BelowAt(t, 97, 2) && BelowAt(t, 98, 4) && BelowAt(t, 99, 4);
    assert BelowAt(t, 100, 3) && BelowAt(t, 101, 3) && BelowAt(t, 102, 3) && BelowAt(t, 103, 3);
  }

  lemma RiseFrom104(t: Table)
    requires LastRows(t)
    ensures forall i :: 104 <= i < 116 ==> Rises(t, i)
  {
    assert BelowAt(t, 104, 5) && BelowAt(t, 105, 5) && BelowAt(t, 106, 3) && BelowAt(t, 107, 3);
    assert BelowAt(t, 108, 3) && BelowAt(t, 109, 1) && BelowAt(t, 110, 0) && BelowAt(t, 111, 1);
    assert BelowAt(t, 112, 0) && BelowAt(t, 113, 2) && BelowAt(t, 114, 1) && BelowAt(t, 115, 0);
  }

  lemma FirstRise(t: Table)
    requires FirstRows(t)
    ensures forall i :: 0 <= i < 58 && !(43 <= i <= 45) ==> Rises(t, i)
  {
    RiseFrom0(t); RiseFrom12(t); RiseFrom24(t); RiseFrom36(t); RiseFrom46(t);
  }

  lemma LastRise(t: Table)
    requires LastRows(t)
    ensures forall i :: 58 <= i < 116 ==> Rises(t, i)
  {
    RiseFrom58(t); RiseFrom70(t); RiseFrom77(t); RiseFrom80(t); RiseFrom92(t); RiseFrom104(t);
  }

  lemma RisesAreLess(t: Table)
    requires forall i :: 0 <= i < 116 && !(43 <= i <= 45) ==> Rises(t, i)
    ensures forall i {:trigger t[i]} :: 0 <= i < 116 && !(43 <= i <= 45) ==> Less(t[i], t[i + 1])
  {
    forall i | 0 <= i < 116 && !(43 <= i <= 45)
      ensures Less(t[i], t[i + 1])
    {
      RisesIsLess(t, i);
    }
  }

  /** All rows ascend but those around the place. */
  lemma Ascends(t: Table)
    requires Shipped(t)
    ensures forall i {:trigger t[i]} :: 0 <= i < 116 && !(43 <= i <= 45) ==> Less(t[i], t[i + 1])
  {
    FirstRise(t);
    LastRise(t);
    RisesAreLess(t);
  }
}
